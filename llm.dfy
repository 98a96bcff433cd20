/**
 * The language-model path of the analysis: the transcript excerpt put into the prompt, and the
 * cascade of early returns that falls back to the heuristic analysis whenever the model is not
 * configured, the excerpt is empty, the call fails, or the reply has no highlight pairs. The
 * provider and the JSON parser are oracles given as parameters; the prompt's fixed wording is
 * not modelled, only what the provider is told about the episode.
 */
module Llm {
  import opened Wrappers
  import opened Text
  import opened Episode
  import opened Decimal
  import opened Clock
  import opened Heuristics

  /** The excerpt length when `LLM_TRANSCRIPT_LIMIT` is unset. */
  const DefaultTranscriptLimit := 24

  /** Where `slice(-limit)` starts on a list of length `n`: a negative start counts from the end. */
  function SliceStart(n: nat, limit: int): (k: nat)
    ensures k <= n
  {
    var start := -limit;
    if start < 0 then (if n + start < 0 then 0 else n + start)
    else if start > n then n
    else start
  }

  /** `entries.slice(-limit)`. */
  function PromptWindow<T>(entries: seq<T>, limit: int): seq<T> {
    entries[SliceStart(|entries|, limit)..]
  }

  /** For a positive limit the excerpt is the last `min(limit, n)` entries, in order. */
  lemma PromptWindowLast<T>(entries: seq<T>, limit: int)
    requires limit >= 1
    ensures var w := PromptWindow(entries, limit);
            |w| == (if limit < |entries| then limit else |entries|)
            && w == entries[|entries| - |w|..]
  {
  }

  /** A zero limit is `slice(-0)`, that is `slice(0)`: the whole transcript. */
  lemma PromptWindowZero<T>(entries: seq<T>)
    ensures PromptWindow(entries, 0) == entries
  {
  }

  /**
   * `Math.floor(ts % 60)` for a timestamp of `ms` milliseconds. JavaScript's `%` keeps the sign
   * of `ts` and its fraction, so a negative timestamp with a fraction of a second rounds down
   * once more: `-59.5 % 60` is `-59.5`, whose floor is `-60`.
   */
  function PromptSeconds(ms: int): (s: int)
    ensures ms >= 0 ==> s == (ms / 1000) % 60
    ensures ms < 0 ==> -60 <= s <= 0
    ensures ms < 0 ==> 1000 * s <= -((-ms) % 60000) < 1000 * s + 1000
  {
    if ms >= 0 then (ms / 1000) % 60 else -(((-ms) % 60000 + 999) / 1000)
  }

  /**
   * The `[MM:SS]` prefix of a prompt line, from a timestamp in milliseconds: `Math.floor(ts / 60)`
   * and `Math.floor(ts % 60)` of the seconds, which render as `Infinity` and `NaN` when the
   * timestamp is not finite.
   */
  function PromptTime(ts: Num): string {
    match ts
    case Finite(ms) => PadStart2(IntToString(ms / 60000)) + ":" + PadStart2(IntToString(PromptSeconds(ms)))
    case PosInf => "Infinity:NaN"
    case NegInf => "-Infinity:NaN"
    case NaN => "NaN:NaN"
  }

  /** `Math.floor(ts / 60)` on whole seconds equals it on milliseconds. */
  lemma MinutesOfMs(ms: int)
    ensures ms / 60000 == (ms / 1000) / 60
  {
    var q := ms / 60000;
    var r := ms % 60000;
    assert ms == 60000 * q + r && 0 <= r < 60000;
    assert ms / 1000 == 60 * q + r / 1000 by {
      assert ms == 1000 * (60 * q + r / 1000) + r % 1000;
    }
    assert 0 <= r / 1000 < 60;
  }

  /** A whole number of seconds below zero: the truncated remainder, with no extra rounding. */
  lemma SecondsOfWholeNegative(k: int)
    requires k > 0
    ensures PromptSeconds(-1000 * k) == TruncRem(-k, 60)
  {
    var q := k / 60;
    var r := k % 60;
    assert 1000 * k == 60000 * q + 1000 * r;
    assert (1000 * k) % 60000 == 1000 * r;
    assert (1000 * r + 999) / 1000 == r;
  }

  /** For a non-negative timestamp, or a whole number of seconds, the seconds field is the truncated remainder. */
  lemma SecondsOfMs(ms: int)
    requires ms >= 0 || ms % 1000 == 0
    ensures PromptSeconds(ms) == TruncRem(ms / 1000, 60)
  {
    if ms < 0 {
      var k := -(ms / 1000);
      assert ms == 1000 * (ms / 1000);
      assert ms == -1000 * k && k > 0;
      SecondsOfWholeNegative(k);
    }
  }

  /**
   * For a non-negative timestamp, or a whole number of seconds, the prefix is the `MM:SS` clock
   * label of the whole seconds.
   */
  lemma PromptTimeWholeSeconds(ms: int)
    requires ms >= 0 || ms % 1000 == 0
    ensures PromptTime(Finite(ms)) == ClockLabel(ms / 1000)
  {
    MinutesOfMs(ms);
    SecondsOfMs(ms);
  }

  /** The prefix of a non-negative timestamp reads back as its whole seconds. */
  lemma PromptTimeReadsBack(ms: nat)
    ensures var shown := PromptTime(Finite(ms));
            |shown| >= 5 && shown[|shown| - 3] == ':'
            && AllDigits(MinutesField(shown)) && AllDigits(SecondsField(shown))
            && DigitsValue(SecondsField(shown)) < 60
            && 60 * DigitsValue(MinutesField(shown)) + DigitsValue(SecondsField(shown)) == ms / 1000
  {
    PromptTimeWholeSeconds(ms);
    ClockLabelReadsBack(ms / 1000);
  }

  /** A negative timestamp with a fraction of a second: `-59.5` is shown as `-1:-60`. */
  lemma NegativeFractionPromptTime()
    ensures PromptTime(Finite(-59500)) == "-1:-60"
    ensures ClockLabel(-59500 / 1000) == "-1:00"
  {
    assert NatToString(1) == "1";
    var minutes := PadStart2(IntToString(-1));
    assert minutes == "-1";
    var seconds := PadStart2(IntToString(-60));
    assert seconds == "-60" by {
      assert NatToString(60) == NatToString(6) + ['0'] && NatToString(6) == "6";
    }
    assert PromptTime(Finite(-59500)) == minutes + ":" + seconds by {
      assert -59500 / 60000 == -1 && PromptSeconds(-59500) == -60;
    }
    assert ClockLabel(-60) == minutes + ":" + PadStart2(IntToString(0)) by {
      assert -60 / 60 == -1 && TruncRem(-60, 60) == 0;
    }
    assert PadStart2(IntToString(0)) == "00";
  }

  /** `[` + the time prefix + `] ` + the entry's text. */
  function PromptLine(e: TranscriptEntry): (line: string)
    ensures |line| == |PromptTime(e.ts)| + 3 + |e.text|
    ensures line[0] == '[' && line[1..|line| - |e.text| - 2] == PromptTime(e.ts)
    ensures line[|line| - |e.text| - 2..|line| - |e.text|] == "] "
    ensures line[|line| - |e.text|..] == e.text
  {
    "[" + PromptTime(e.ts) + "] " + e.text
  }

  function PromptLines(entries: seq<TranscriptEntry>): (lines: seq<string>)
    ensures |lines| == |entries|
    ensures forall i :: 0 <= i < |entries| ==> lines[i] == PromptLine(entries[i])
  {
    seq(|entries|, i requires 0 <= i < |entries| => PromptLine(entries[i]))
  }

  /** `formatTranscriptForPrompt`: the excerpt, one `[MM:SS] text` line per entry. */
  function FormatTranscriptForPrompt(entries: seq<TranscriptEntry>, limit: int): string {
    Join(PromptLines(PromptWindow(entries, limit)), "\n")
  }

  /** The excerpt text is empty exactly when the excerpt has no entries. */
  lemma PromptTextEmpty(entries: seq<TranscriptEntry>, limit: int)
    ensures FormatTranscriptForPrompt(entries, limit) == [] <==> PromptWindow(entries, limit) == []
  {
    var lines := PromptLines(PromptWindow(entries, limit));
    if lines != [] {
      JoinNonEmpty(lines, "\n");
    }
  }

  lemma PromptTimeChars(ts: Num, c: char)
    ensures c in PromptTime(ts) ==> c != '\n'
  {
    if ts.Finite? {
      var a, b := IntToString(ts.value / 60000), IntToString(PromptSeconds(ts.value));
      PadChars(a, c);
      PadChars(b, c);
      IntChars(ts.value / 60000, c);
      IntChars(PromptSeconds(ts.value), c);
      assert PromptTime(ts) == PadStart2(a) + ":" + PadStart2(b);
    }
  }

  lemma PromptLineSingle(e: TranscriptEntry)
    requires '\n' !in e.text
    ensures '\n' !in PromptLine(e)
  {
    PromptTimeChars(e.ts, '\n');
    assert PromptLine(e) == "[" + PromptTime(e.ts) + "] " + e.text;
  }

  /** When no excerpt text holds a line break, splitting the excerpt at line breaks gives back its lines. */
  lemma PromptLinesRecoverable(entries: seq<TranscriptEntry>, limit: int)
    requires PromptWindow(entries, limit) != []
    requires forall i :: 0 <= i < |PromptWindow(entries, limit)| ==> '\n' !in PromptWindow(entries, limit)[i].text
    ensures Split(FormatTranscriptForPrompt(entries, limit), "\n") == PromptLines(PromptWindow(entries, limit))
  {
    var w := PromptWindow(entries, limit);
    var lines := PromptLines(w);
    forall i | 0 <= i < |lines| ensures !Contains(lines[i], ['\n']) {
      PromptLineSingle(w[i]);
      ContainsChar(lines[i], '\n');
    }
    SplitJoin(lines, '\n');
  }

  /** `meta?.title ?? 'Unknown Peppa Pig episode'`. */
  function PromptTitle(meta: Option<EpisodeMeta>): string {
    if meta.Some? then meta.value.title else "Unknown Peppa Pig episode"
  }

  /** `meta?.durationSec ?? 0`. */
  function PromptDuration(meta: Option<EpisodeMeta>): int {
    if meta.Some? then meta.value.durationSec else 0
  }

  /** What the provider is told: the episode's title and length and the transcript excerpt. */
  datatype PromptInput = PromptInput(title: string, durationSec: int, transcriptText: string)

  /** How a call to the provider ends: it throws, or it answers with `output_text` (possibly undefined). */
  datatype ProviderReply = ProviderThrows | Replied(outputText: Option<string>)

  /** `JSON.parse` of the reply: it throws, or gives an object whose pair list may be missing. */
  datatype ParsedReply = ParseThrows | ParsedAnalysis(pairs: Option<seq<HighlightPair>>, summary: Option<string>, notes: Option<string>)

  /** `Number.isFinite(pair.ts) ? pair.ts : 0`, every other field kept. */
  function FinitePair(p: HighlightPair): (q: HighlightPair)
    ensures q.ts.Finite?
  {
    HighlightPair(Finite(FiniteOrZero(p.ts)), p.childLine, p.partnerLine, p.context, p.tip)
  }

  function FinitePairs(pairs: seq<HighlightPair>): (r: seq<HighlightPair>)
    ensures |r| == |pairs|
    ensures forall i :: 0 <= i < |pairs| ==> r[i] == FinitePair(pairs[i])
  {
    seq(|pairs|, i requires 0 <= i < |pairs| => FinitePair(pairs[i]))
  }

  /**
   * `requestEpisodeAnalysis` with the client's presence `configured`, the excerpt limit, the
   * provider `respond` and the parser `parse`. Every failure, thrown or returned, gives the
   * heuristic analysis; nothing propagates.
   */
  function RequestEpisodeAnalysis(transcript: seq<TranscriptEntry>, meta: Option<EpisodeMeta>, configured: bool, limit: int,
                                  respond: PromptInput -> ProviderReply, parse: string -> ParsedReply): EpisodeAnalysis
  {
    Cascade(HeuristicAnalysis(transcript, meta, DefaultLimit), transcript, meta, configured, limit, respond, parse)
  }

  /** The chain of early returns, each falling back to `heuristic`. */
  function Cascade(heuristic: EpisodeAnalysis, transcript: seq<TranscriptEntry>, meta: Option<EpisodeMeta>, configured: bool, limit: int,
                   respond: PromptInput -> ProviderReply, parse: string -> ParsedReply): EpisodeAnalysis
  {
    if !configured then heuristic
    else
      var text := FormatTranscriptForPrompt(transcript, limit);
      if text == [] then heuristic
      else
        match respond(PromptInput(PromptTitle(meta), PromptDuration(meta), text))
        case ProviderThrows => heuristic
        case Replied(out) =>
          if out.None? || out.value == [] then heuristic
          else
            match parse(out.value)
            case ParseThrows => heuristic
            case ParsedAnalysis(pairs, summary, notes) =>
              if pairs.None? || pairs.value == [] then heuristic
              else EpisodeAnalysis(FinitePairs(pairs.value), summary, notes)
  }

  /** The reply the model's answer is taken from, when every step succeeds. */
  predicate Answered(transcript: seq<TranscriptEntry>, meta: Option<EpisodeMeta>, configured: bool, limit: int,
                     respond: PromptInput -> ProviderReply, parse: string -> ParsedReply)
  {
    var text := FormatTranscriptForPrompt(transcript, limit);
    configured && text != []
    && var reply := respond(PromptInput(PromptTitle(meta), PromptDuration(meta), text));
    reply.Replied? && reply.outputText.Some? && reply.outputText.value != []
    && var parsed := parse(reply.outputText.value);
    parsed.ParsedAnalysis? && parsed.pairs.Some? && parsed.pairs.value != []
  }

  /** The parsed reply of an answered request. */
  function AnswerOf(transcript: seq<TranscriptEntry>, meta: Option<EpisodeMeta>, configured: bool, limit: int,
                    respond: PromptInput -> ProviderReply, parse: string -> ParsedReply): (parsed: ParsedReply)
    requires Answered(transcript, meta, configured, limit, respond, parse)
    ensures parsed.ParsedAnalysis? && parsed.pairs.Some? && parsed.pairs.value != []
  {
    var text := FormatTranscriptForPrompt(transcript, limit);
    parse(respond(PromptInput(PromptTitle(meta), PromptDuration(meta), text)).outputText.value)
  }

  /** Without a usable answer the cascade ends in its fallback. */
  lemma CascadeFallsBack(heuristic: EpisodeAnalysis, transcript: seq<TranscriptEntry>, meta: Option<EpisodeMeta>, configured: bool, limit: int,
                         respond: PromptInput -> ProviderReply, parse: string -> ParsedReply)
    ensures !Answered(transcript, meta, configured, limit, respond, parse) ==>
              Cascade(heuristic, transcript, meta, configured, limit, respond, parse) == heuristic
  {
  }

  /** With an answer the cascade returns the parsed reply with finite timestamps. */
  lemma CascadeAnswers(heuristic: EpisodeAnalysis, transcript: seq<TranscriptEntry>, meta: Option<EpisodeMeta>, configured: bool, limit: int,
                       respond: PromptInput -> ProviderReply, parse: string -> ParsedReply)
    requires Answered(transcript, meta, configured, limit, respond, parse)
    ensures var parsed := AnswerOf(transcript, meta, configured, limit, respond, parse);
            Cascade(heuristic, transcript, meta, configured, limit, respond, parse)
            == EpisodeAnalysis(FinitePairs(parsed.pairs.value), parsed.summary, parsed.notes)
  {
  }

  /** Without a usable answer the result is exactly the heuristic analysis. */
  lemma FallsBackToHeuristic(transcript: seq<TranscriptEntry>, meta: Option<EpisodeMeta>, configured: bool, limit: int,
                             respond: PromptInput -> ProviderReply, parse: string -> ParsedReply)
    ensures !Answered(transcript, meta, configured, limit, respond, parse) ==>
              RequestEpisodeAnalysis(transcript, meta, configured, limit, respond, parse) == HeuristicAnalysis(transcript, meta, DefaultLimit)
  {
    CascadeFallsBack(HeuristicAnalysis(transcript, meta, DefaultLimit), transcript, meta, configured, limit, respond, parse);
  }

  /**
   * With an answer, the result is the parsed reply with the same number of pairs, every text
   * field of every pair kept, and any non-finite `ts` replaced by 0.
   */
  lemma UsesAnswer(transcript: seq<TranscriptEntry>, meta: Option<EpisodeMeta>, configured: bool, limit: int,
                   respond: PromptInput -> ProviderReply, parse: string -> ParsedReply)
    requires Answered(transcript, meta, configured, limit, respond, parse)
    ensures var a := RequestEpisodeAnalysis(transcript, meta, configured, limit, respond, parse);
            var parsed := AnswerOf(transcript, meta, configured, limit, respond, parse);
            var pairs := parsed.pairs.value;
            |a.highlightPairs| == |pairs| && a.summary == parsed.summary && a.notes == parsed.notes
            && forall i :: 0 <= i < |pairs| ==>
                 a.highlightPairs[i].ts == Finite(FiniteOrZero(pairs[i].ts))
                 && a.highlightPairs[i].childLine == pairs[i].childLine
                 && a.highlightPairs[i].partnerLine == pairs[i].partnerLine
                 && a.highlightPairs[i].context == pairs[i].context
                 && a.highlightPairs[i].tip == pairs[i].tip
  {
    CascadeAnswers(HeuristicAnalysis(transcript, meta, DefaultLimit), transcript, meta, configured, limit, respond, parse);
  }

  /** Every pair of the result has a finite timestamp, whichever branch produced it. */
  lemma ResultTimestampsFinite(transcript: seq<TranscriptEntry>, meta: Option<EpisodeMeta>, configured: bool, limit: int,
                               respond: PromptInput -> ProviderReply, parse: string -> ParsedReply, i: nat)
    requires i < |RequestEpisodeAnalysis(transcript, meta, configured, limit, respond, parse).highlightPairs|
    ensures RequestEpisodeAnalysis(transcript, meta, configured, limit, respond, parse).highlightPairs[i].ts.Finite?
  {
    if !Answered(transcript, meta, configured, limit, respond, parse) {
      FallsBackToHeuristic(transcript, meta, configured, limit, respond, parse);
      HeuristicAnalysisPairs(transcript, meta, DefaultLimit, i);
    } else {
      UsesAnswer(transcript, meta, configured, limit, respond, parse);
    }
  }

  /** Without a client the provider is never consulted: any two providers and parsers give the same result. */
  lemma NoClientNoCall(transcript: seq<TranscriptEntry>, meta: Option<EpisodeMeta>, limit: int,
                       respond: PromptInput -> ProviderReply, parse: string -> ParsedReply,
                       respond': PromptInput -> ProviderReply, parse': string -> ParsedReply)
    ensures RequestEpisodeAnalysis(transcript, meta, false, limit, respond, parse)
            == RequestEpisodeAnalysis(transcript, meta, false, limit, respond', parse')
  {
  }

  /** An empty excerpt is not sent either: the provider is not consulted. */
  lemma EmptyExcerptNoCall(transcript: seq<TranscriptEntry>, meta: Option<EpisodeMeta>, configured: bool, limit: int,
                           respond: PromptInput -> ProviderReply, parse: string -> ParsedReply,
                           respond': PromptInput -> ProviderReply, parse': string -> ParsedReply)
    requires PromptWindow(transcript, limit) == []
    ensures RequestEpisodeAnalysis(transcript, meta, configured, limit, respond, parse)
            == RequestEpisodeAnalysis(transcript, meta, configured, limit, respond', parse')
            == HeuristicAnalysis(transcript, meta, DefaultLimit)
  {
    PromptTextEmpty(transcript, limit);
  }
}
