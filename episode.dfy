/**
 * The server's shared records: transcript entries, highlight pairs, video metadata and the
 * analysis a request returns. A timestamp is a JavaScript number of milliseconds, so it can be
 * finite, infinite or NaN; the model keeps that distinction explicitly.
 */
module Episode {
  import opened Wrappers

  /** A JavaScript number, seen at millisecond precision. */
  datatype Num = Finite(value: int) | PosInf | NegInf | NaN

  predicate IsFinite(n: Num) {
    n.Finite?
  }

  /** `Number.isFinite(n) ? n : 0`. */
  function FiniteOrZero(n: Num): (r: int)
    ensures n.Finite? ==> r == n.value
    ensures !n.Finite? ==> r == 0
  {
    if n.Finite? then n.value else 0
  }

  datatype TranscriptEntry = TranscriptEntry(text: string, ts: Num)

  datatype HighlightPair = HighlightPair(ts: Num, childLine: string, partnerLine: string, context: string, tip: string)

  datatype EpisodeMeta = EpisodeMeta(title: string, durationSec: int, thumbnail: Option<string>)

  datatype EpisodeAnalysis = EpisodeAnalysis(highlightPairs: seq<HighlightPair>, summary: Option<string>, notes: Option<string>)

  /** The sort key of an entry: its finite timestamp (every sorted list holds finite ones only). */
  function EntryMs(e: TranscriptEntry): int {
    FiniteOrZero(e.ts)
  }
}
