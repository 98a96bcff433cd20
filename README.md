# Peppa practice companion — a Dafny model of its deterministic core

The application helps a parent practise English phrases from a YouTube cartoon with a child.
It has two halves:

- **A server** with an `/analyze` route. It accepts a video id and a transcript, and returns highlight pairs. A pair is a line for the child, a line for the partner, a context note and a tip. The pairs come from a language model when one is configured, and otherwise from a local heuristic.
- **A browser controller.** It records the microphone in 8-second slices, has each slice transcribed in queue order, and keeps a time-sorted, editable log of the recognised lines.

This project models the parts of both halves that compute something, and proves what they promise:

| module | file | what it models |
|---|---|---|
| `Wrappers`, `Text`, `Decimal`, `Sorting` | `wrappers.dfy`, `text.dfy`, `decimal.dfy`, `sorting.dfy` | The JavaScript primitives the code relies on. `Text` covers `trim`, `\s+` collapsing, `split`/`join`, `includes`, `filter(Boolean)`, `toLowerCase` and the CRLF rewrite. `Decimal` covers `toString`/`padStart`. `Sorting` is the stable `Array.prototype.sort`: a specification function `StableSort`, and an in-place insertion sort on an `array` proved equal to it. |
| `Episode` | `episode.dfy` | The shared records: `TranscriptEntry`, `HighlightPair`, `EpisodeMeta` and `EpisodeAnalysis`. A timestamp is a JavaScript number at millisecond precision: finite, `±Infinity` or `NaN`. |
| `WebVtt` | `webvtt.dfy` | The caption parser, a loose subset of the cue timings of W3C WebVTT (section 4.1). |
| `Heuristics` | `heuristics.dfy` | The local highlight synthesiser and the bag-of-words attempt score. |
| `YouTube` | `youtube.dfy` | The `PTnHnMnS` duration parser (the time part of ISO 8601 durations), the two response-filtering loops, and the caption lookup. |
| `Clock` | `clock.dfy` | The `MM:SS`, `Nm` and `Nm SSs` labels. |
| `Llm` | `llm.dfy` | The prompt excerpt and the language-model fallback cascade. The provider and the JSON parser are oracles. |
| `Analysis` | `analysis.dfy` | The choice between the language model and the heuristic, and the `source` label it reports. |
| `AnalyzeRoute` | `analyze_route.dfy` | The GET and POST handlers as pure functions from a request to a reply. |
| `Controller` | `controller.dfy` | The controller's bookkeeping. It covers the sorted chunk insertion, editing and deleting log rows, the displayed-pairs memo, and the microphone-error text. It also holds the recorder state machine, a `class CaptureSession` whose methods update its fields. |

Times are integers in the model:

- Caption and transcript timestamps are milliseconds.
- Video durations are whole seconds.
- The controller's positions are milliseconds, so a slice is `8000`.

The JavaScript `%` is modelled as a truncating remainder (`Clock.TruncRem`), because Dafny's `%` is Euclidean.

The model follows the code, including three consequences of it that are easy to miss:

- `generateEpisodeAnalysis` reports source `llm` even when `requestEpisodeAnalysis` silently fell back to the heuristic (`Analysis.GenerateSource`, `Analysis.SilentFallbackLabelledLlm`).
- A POST reply therefore never carries a `warning` (`AnalyzeRoute.PostNeverWarns`).
- A GET never returns a preview, because `fetchCaptionsWebVTT` always yields `null` (`AnalyzeRoute.GetNeverPreviews`).

## Model

| member | source | states |
|---|---|---|
| Episode.FiniteOrZero | apps/server/src/services/heuristics.ts:41 | `Number.isFinite(n) ? n : 0`: the value when finite, 0 for `±Infinity` and `NaN` |
| Text.Trim | apps/server/src/utils/webvtt.ts:22 | the result has no whitespace at either end and is the infix left after removing the leading and trailing whitespace runs |
| Text.TrimEmptyIff | apps/server/src/routes/analyze.ts:14-15 | trimming gives the empty string exactly for an all-whitespace string (the falsy test after `trim()`) |
| Text.TrimIdempotent | apps/server/src/utils/webvtt.ts:22 | trimming twice is trimming once |
| Text.TrimKeepsVisible | apps/server/src/utils/webvtt.ts:43 | trimming removes whitespace only: the non-whitespace characters are unchanged, in order |
| Text.SplitJoin | apps/server/src/utils/webvtt.ts:28 | joining parts that do not contain the separator and splitting again gives back the parts |
| Text.RemoveEmpty | apps/server/src/utils/webvtt.ts:23 | `filter(Boolean)` keeps exactly the non-empty strings, and never lengthens the list |
| Text.NormalizeUndoesCrLf | apps/server/src/utils/webvtt.ts:20 | `replace(/\r\n/g, '\n')` undoes writing every line feed as CRLF |
| Decimal.NatToString | apps/controller/src/App.tsx:97-99 | the rendering of `n` is all digits, reads back as `n`, has no leading zero, and is one digit exactly when `n < 10` |
| Decimal.CanonicalDigits | apps/server/src/services/youtube.ts:82-84 | a digit string without leading zeros is the rendering of its own value |
| Decimal.PadStart2 | apps/controller/src/App.tsx:98-99 | `padStart(2, '0')` keeps the string as its suffix, adds only zeros, and is at least two long |
| Decimal.PadKeepsValue | apps/controller/src/App.tsx:100-102 | zero padding keeps a digit string's value |
| Sorting.StableSortSorted | apps/server/src/utils/webvtt.ts:50 | the sort orders by key |
| Sorting.StableSortPermutes | apps/server/src/utils/webvtt.ts:50 | the sort is a permutation: same length, same multiset |
| Sorting.StableSortIsStable | apps/server/src/utils/webvtt.ts:50 | among elements with equal keys the input order is kept |
| Sorting.StableSortOfSorted | apps/controller/src/App.tsx:434 | an already ordered list is left exactly as it is |
| Sorting.AppendThenSort | apps/controller/src/App.tsx:433-434 | appending one element to an ordered list and sorting inserts it after its equals |
| Sorting.SortPrefixAbsorbed | apps/controller/src/App.tsx:432-435 | `sort(sort(a) + b) == sort(a + b)`: successive sorted insertions equal one sort of everything |
| Sorting.InsertLast | apps/server/src/utils/webvtt.ts:50 | one insertion step on an `array`: the prefix becomes the stable insertion of the next element, and the rest is unchanged |
| Sorting.SortInPlace | apps/server/src/utils/webvtt.ts:50 | in-place sort of an `array`: its new contents are `StableSort` of its old contents |
| WebVtt.FindTimecode | apps/server/src/utils/webvtt.ts:3-7 | the leftmost index at or after `from` where `\d{2}:\d{2}:\d{2}\.\d{3}` matches, or none when there is no match |
| WebVtt.ParseTimecode | apps/server/src/utils/webvtt.ts:6-16 | `None` exactly when the pattern matches nowhere; otherwise the leftmost match's `h*3600000 + m*60000 + s*1000 + ms` (no range check) |
| WebVtt.FormatTimecode | apps/server/src/utils/webvtt.ts:3-4 | the reference rendering of a time below 100 hours: 12 characters matching the pattern at index 0 |
| WebVtt.TimecodeRoundTrip | apps/server/src/utils/webvtt.ts:6-16 | a rendered timestamp followed by any text parses back to its time |
| WebVtt.UnanchoredExample | apps/server/src/utils/webvtt.ts:3-7 | the pattern is unanchored: `123:45:07.500` reads as `23:45:07.500` |
| WebVtt.ShortHoursExample | apps/server/src/utils/webvtt.ts:3-10 | a one-digit hour field gives no timestamp |
| WebVtt.Blocks | apps/server/src/utils/webvtt.ts:19-23 | every block is non-empty and trimmed |
| WebVtt.TimeLineIndex | apps/server/src/utils/webvtt.ts:32-35 | the first line containing `-->`, or none exactly when no line contains it |
| WebVtt.ParseCue | apps/server/src/utils/webvtt.ts:28-47 | an emitted entry has a finite time and a non-empty, trimmed text |
| WebVtt.Cues | apps/server/src/utils/webvtt.ts:27-48 | at most one entry per block, each with a finite time and a non-empty, trimmed text |
| WebVtt.CollectCues | apps/server/src/utils/webvtt.ts:25-48 | the `for` loop pushes exactly the entries of the blocks that parse, in block order |
| WebVtt.SortEntries | apps/server/src/utils/webvtt.ts:50 | sorting the pushed entries in an array gives `StableSort` by time |
| WebVtt.ParseWebVTT | apps/server/src/utils/webvtt.ts:18-52 | the method returns the stably sorted cues of the blocks (`ParseWebVTTSpec`) |
| WebVtt.ParseWebVTTSpec | apps/server/src/utils/webvtt.ts:18-52 | what `parseWebVTT` returns: the cue of each block that parses, in block order, then stably sorted by time |
| WebVtt.ParseWebVTTSorted | apps/server/src/utils/webvtt.ts:50 | the output is ordered by time |
| WebVtt.ParseWebVTTStable | apps/server/src/utils/webvtt.ts:50 | entries with equal times keep their block order |
| WebVtt.ParseWebVTTCount | apps/server/src/utils/webvtt.ts:19-47 | the output is a permutation of the parsed cues, and is no longer than the number of non-empty blocks |
| WebVtt.ParseWebVTTEntries | apps/server/src/utils/webvtt.ts:43-47 | every output entry has a finite time and a non-empty text with no whitespace at either end |
| WebVtt.CrLfAgnostic | apps/server/src/utils/webvtt.ts:20 | a document written with CRLF line endings parses exactly like its LF form |
| WebVtt.TimeLineReads | apps/server/src/utils/webvtt.ts:36-38 | the start text of a time line (before the first `-->`, trimmed) is its timestamp, which parses back to its time |
| WebVtt.CueBlockLines | apps/server/src/utils/webvtt.ts:28 | the lines of a well-formed block are exactly the lines it was written from |
| WebVtt.CueBlockRoundTrip | apps/server/src/utils/webvtt.ts:28-47 | a block of identifier lines, a time line and text lines parses to one entry: the start time, and the text lines joined with single spaces |
| WebVtt.BlockWithoutHyphen | apps/server/src/utils/webvtt.ts:32-35 | a block with no `-` has no time line and is skipped |
| WebVtt.NoArrowNoEntries | apps/server/src/utils/webvtt.ts:18-52 | a document with no `-` at all (in particular an empty one) yields no entries |
| Heuristics.CleanText | apps/server/src/services/heuristics.ts:24-26 | the result is trimmed, has no run of two whitespace characters, has only plain spaces, and keeps the input's non-whitespace characters in order |
| Heuristics.CleanTextEmpty | apps/server/src/services/heuristics.ts:24-26 | cleaning gives the empty string exactly for all-whitespace input |
| Heuristics.CleanTextIdempotent | apps/server/src/services/heuristics.ts:24-26 | cleaning twice is cleaning once |
| Heuristics.CleanTextOfClean | apps/server/src/services/heuristics.ts:24-26 | a trimmed, collapsed string is its own cleaning |
| Heuristics.PartnerLine | apps/server/src/services/heuristics.ts:28-31 | `buildPartnerLine`: the fixed `Let’s try that line together!` for an empty line, otherwise `Let’s say: “line”` |
| Heuristics.PartnerLineQuotes | apps/server/src/services/heuristics.ts:28-31 | an empty line gives the fixed invitation; otherwise the partner line is `Let’s say: “` + the line + `”` |
| Heuristics.PartnerLineInjective | apps/server/src/services/heuristics.ts:28-31 | different lines give different partner lines |
| Heuristics.Meaningful | apps/server/src/services/heuristics.ts:39-44 | no longer than the transcript, and every kept text is non-empty and trimmed |
| Heuristics.MeaningfulAppend | apps/server/src/services/heuristics.ts:39-44 | the `map`/`filter` keeps input order: it distributes over concatenation |
| Heuristics.MeaningfulMembers | apps/server/src/services/heuristics.ts:39-44 | an entry is kept, cleaned and with its time made finite, exactly when its text is not all whitespace |
| Heuristics.MeaningfulSound | apps/server/src/services/heuristics.ts:39-44 | every kept entry is the cleaning of some input entry, with a non-empty text |
| Heuristics.MeaningfulComplete | apps/server/src/services/heuristics.ts:39-44 | every input entry whose cleaned text is non-empty is kept |
| Heuristics.MeaningfulKeepsVisible | apps/server/src/services/heuristics.ts:39-44 | when no text is all whitespace, every entry is kept |
| Heuristics.PairCount | apps/server/src/services/heuristics.ts:46 | the number of rounds is `min(limit, n)`, and 0 for a non-positive limit |
| Heuristics.PairsUpTo | apps/server/src/services/heuristics.ts:46-57 | after `n` rounds exactly `n` highlights have been pushed |
| Heuristics.PairsUpToAt | apps/server/src/services/heuristics.ts:46-57 | round `i` pushes the highlight of the `i`-th meaningful entry, and later rounds keep it |
| Heuristics.CollectHighlights | apps/server/src/services/heuristics.ts:46-57 | the loop under the `highlights.length < limit` guard pushes the first `min(limit, n)` highlights, in order |
| Heuristics.BuildHeuristicAnalysis | apps/server/src/services/heuristics.ts:33-67 | the method returns `HeuristicAnalysis` of its inputs |
| Heuristics.HeuristicAnalysis | apps/server/src/services/heuristics.ts:33-67 | `buildHeuristicAnalysis`: the highlights the loop builds from the meaningful entries, and the summary chosen by the title |
| Heuristics.HeuristicAnalysisPairs | apps/server/src/services/heuristics.ts:33-57 | there are `min(limit, #meaningful)` pairs; pair `i` takes the finite time and cleaned text of the `i`-th meaningful entry, the partner line of that text, tip `i mod 10` and context `i mod 5` |
| Heuristics.HeuristicSummary | apps/server/src/services/heuristics.ts:59-61 | the summary quoting `meta.title` when it is present and non-empty, otherwise the fixed Whisper summary |
| Heuristics.HeuristicSummaryTitle | apps/server/src/services/heuristics.ts:59-61 | the summary quotes the title verbatim exactly when it is present and non-empty; otherwise it is the fixed text |
| Heuristics.Words | apps/server/src/services/heuristics.ts:70-77 | the words of a phrase: whitespace runs collapsed, trimmed, lower-cased, split on single spaces, empty pieces dropped |
| Heuristics.WordsShape | apps/server/src/services/heuristics.ts:70-77 | every word is non-empty and holds no space |
| Heuristics.WordsEmpty | apps/server/src/services/heuristics.ts:70-79 | a phrase has no words exactly when it is all whitespace |
| Heuristics.Matches | apps/server/src/services/heuristics.ts:87 | the number of matching attempt words is at most the number of attempt words |
| Heuristics.MatchesAllFound | apps/server/src/services/heuristics.ts:87 | when every attempt word is in the target, every one counts as a match |
| Heuristics.RoundedPercent | apps/server/src/services/heuristics.ts:88 | `Math.round(100*m/t)` in integers: the `r` with `2tr <= 200m + t < 2t(r+1)` |
| Heuristics.RoundedPercentAtLeast | apps/server/src/services/heuristics.ts:88-95 | the score reaches tier `k` exactly when `200m + t >= 2tk` |
| Heuristics.WordScore | apps/server/src/services/heuristics.ts:79-88 | 0 when either side has no words; otherwise the rounded percentage of matching attempt words over target words |
| Heuristics.AttemptFeedback | apps/server/src/services/heuristics.ts:69-105 | the score, with the fixed message and tip when a side is empty, and otherwise the message and tip of the `≥80`, `≥50` or lower tier |
| Heuristics.IdenticalWordsScoreFull | apps/server/src/services/heuristics.ts:87-88 | an attempt of exactly the target words scores 100 |
| Heuristics.IdenticalAttemptScoresFull | apps/server/src/services/heuristics.ts:69-105 | repeating a non-blank phrase exactly scores 100, with the top-tier message |
| Heuristics.RepeatedWordsExceedFull | apps/server/src/services/heuristics.ts:87-88 | the score is not capped: `["a"]` against `["a","a"]` scores 200 |
| Heuristics.RepeatedPhraseExceedsFull | apps/server/src/services/heuristics.ts:69-88 | the phrase `a a` tried against `a` scores 200 |
| YouTube.DigitRun | apps/server/src/services/youtube.ts:81 | the maximal run of digits at the start of the text (`\d+` is greedy) |
| YouTube.ReadGroup | apps/server/src/services/youtube.ts:81-84 | an optional group `(?:(\d+)U)?` consumes nothing and counts 0 when absent, and ends with its unit letter when present |
| YouTube.Iso8601ToSeconds | apps/server/src/services/youtube.ts:80-86 | `iso8601ToSeconds`: the components read after the leftmost `PT`, or 0 when the string has no `PT` |
| YouTube.ComponentSeconds | apps/server/src/services/youtube.ts:81-85 | the optional `H`, `M` and `S` groups read in that order, absent ones as 0, combined as `3600h + 60m + s` |
| YouTube.NoDesignatorIsZero | apps/server/src/services/youtube.ts:81-85 | a string with no `PT` is 0 seconds |
| YouTube.NoTimeDesignator | apps/server/src/services/youtube.ts:81-85 | a string without the letter `T` is 0 seconds |
| YouTube.DesignatorFirst | apps/server/src/services/youtube.ts:81 | after a leading `PT` the components are read from the text that follows |
| YouTube.ComponentsRoundTrip | apps/server/src/services/youtube.ts:81-85 | written components read back as their numbers, absent ones as 0 |
| YouTube.DurationRoundTrip | apps/server/src/services/youtube.ts:80-86 | `PT[nH][nM][nS]` followed by a non-digit is `3600H + 60M + S` seconds, with every absent component counting 0 |
| YouTube.FullDurationExample | apps/server/src/services/youtube.ts:81-85 | `PT1H2M3S` is 3723 seconds |
| YouTube.SecondsOnlyExample | apps/server/src/services/youtube.ts:81-85 | `PT5S` is 5 seconds |
| YouTube.BareDesignatorExample | apps/server/src/services/youtube.ts:81-85 | a bare `PT` is 0 seconds |
| YouTube.LeftmostDesignator | apps/server/src/services/youtube.ts:81 | the leftmost `PT` is read: `PT5SPT9S` is 5 seconds |
| YouTube.DayComponentIsZero | apps/server/src/services/youtube.ts:80-86 | a duration `P<n>D…` with no later `P` contains no `PT`, so it reads as 0 seconds, its hours and minutes included |
| YouTube.DayComponentExample | apps/server/src/services/youtube.ts:80-86 | `P1DT2H3M` has no `PT`, so it reads as 0 seconds in full |
| YouTube.CollectDurations | apps/server/src/services/youtube.ts:37-43 | the loop builds exactly `DurationTable` of the items |
| YouTube.DurationTableKeys | apps/server/src/services/youtube.ts:38-42 | the keys are exactly the ids of items that have both a truthy id and a truthy duration |
| YouTube.DurationTableLastWins | apps/server/src/services/youtube.ts:42 | the value under an id is the duration of the last item with that id |
| YouTube.ToVideo | apps/server/src/services/youtube.ts:68-75 | a listed item's record has a non-empty id and title; the thumbnail is the medium URL when truthy, and otherwise the high one |
| YouTube.ChannelVideos | apps/server/src/services/youtube.ts:67-76 | no more records than items |
| YouTube.FetchCaptionsWebVTT | apps/server/src/services/youtube.ts:53-55 | `fetchCaptionsWebVTT` finds no captions for any id: it always gives `None` |
| YouTube.CollectChannelVideos | apps/server/src/services/youtube.ts:66-77 | the loop pushes exactly `ChannelVideos` of the items |
| YouTube.ChannelVideosAppend | apps/server/src/services/youtube.ts:67-76 | order is kept: the records of a concatenation are those of each part, in turn |
| YouTube.ChannelVideosMembers | apps/server/src/services/youtube.ts:67-76 | a record appears exactly when a listed item produces it; items lacking an id or a title are skipped |
| YouTube.ChannelVideosAllListed | apps/server/src/services/youtube.ts:67-76 | when every item is listed, record `i` is item `i`'s record |
| Clock.TruncRem | apps/controller/src/App.tsx:100 | JavaScript's `%`: the Euclidean remainder for non-negative operands, the negated one for negative operands, and always strictly within the divisor |
| Clock.ClockLabel | apps/controller/src/App.tsx:96-104 | `formatTime` on whole seconds: `floor(sec / 60)` and the truncated `sec % 60`, each rendered and padded to two characters, joined by `:` |
| Clock.ClockLabelReadsBack | apps/controller/src/App.tsx:96-104 | for a non-negative position, `MM:SS` has a two-digit seconds field below 60 and a minutes field of at least two digits, which read back as the position |
| Clock.SecondsDigits | apps/controller/src/App.tsx:100-102 | a seconds count below 60, padded, is two digits reading back as that count |
| Clock.ClockLabelExamples | apps/controller/src/App.tsx:96-104 | 0 is `00:00`, and 75 is `01:15` |
| Clock.NegativeClockLabel | apps/controller/src/App.tsx:97-102 | a negative position keeps both signs: −5 is `-1:-5` |
| Clock.ClockLabelChars | apps/controller/src/App.tsx:96-104 | a label holds only digits, `:` and `-` |
| Clock.RoundedMinutes | apps/controller/src/App.tsx:92 | `Math.round(sec/60)` for whole seconds: the nearest minute, halves up |
| Clock.DurationLabel | apps/controller/src/App.tsx:88-94 | `toDurationLabel`: `--` for a zero, NaN or non-positive duration, otherwise the rounded minutes followed by `m` |
| Clock.DurationLabelPlaceholder | apps/controller/src/App.tsx:88-91 | the label is `--` exactly for durations that are not positive numbers |
| Clock.DurationLabelMinutes | apps/controller/src/App.tsx:92-93 | a positive duration is labelled with its nearest whole minute followed by `m` |
| Clock.DurationText | apps/controller/src/App.tsx:177-184 | the `durationText` memo: empty for a missing, zero or NaN duration, otherwise `Nm SSs` from the whole minutes and the truncated remainder |
| Clock.DurationTextParts | apps/controller/src/App.tsx:181-183 | a positive duration is rendered from its whole minutes and its remaining seconds |
| Clock.DurationTextSplits | apps/controller/src/App.tsx:177-184 | the seconds field is two digits below 60, and minutes and seconds read back as the duration |
| Clock.DurationTextEmpty | apps/controller/src/App.tsx:178-180 | nothing is shown exactly for a missing, zero or NaN duration |
| Llm.SliceStart | apps/server/src/services/llm.ts:10 | where `slice(-limit)` starts, within the list |
| Llm.PromptWindow | apps/server/src/services/llm.ts:8-10 | `entries.slice(-limit)` with the excerpt limit |
| Llm.PromptWindowLast | apps/server/src/services/llm.ts:8-10 | for `limit >= 1` the excerpt is the last `min(limit, n)` entries, in order |
| Llm.PromptWindowZero | apps/server/src/services/llm.ts:10 | a zero limit is `slice(-0)`, which is the whole transcript |
| Llm.PromptSeconds | apps/server/src/services/llm.ts:15-17 | `Math.floor(ts % 60)` of a millisecond timestamp: the whole-seconds remainder for `ts >= 0`; for `ts < 0` the floor of the truncated remainder, between -60 and 0 |
| Llm.PromptTime | apps/server/src/services/llm.ts:12-18 | the `MM:SS` prefix: `floor(ms / 60000)` and `PromptSeconds`, each rendered and padded to two characters; `Infinity`/`NaN` fields when the timestamp is not finite |
| Llm.MinutesOfMs | apps/server/src/services/llm.ts:12-14 | `Math.floor(ts / 60)` on milliseconds equals it on the whole seconds |
| Llm.SecondsOfWholeNegative | apps/server/src/services/llm.ts:15-17 | for a negative whole number of seconds the seconds field is the truncated remainder, with no extra rounding |
| Llm.PromptTimeWholeSeconds | apps/server/src/services/llm.ts:12-18 | for a non-negative timestamp, or a whole number of seconds, the prefix is `formatTime` of the whole seconds |
| Llm.PromptTimeReadsBack | apps/server/src/services/llm.ts:12-18 | for a non-negative timestamp the prefix is `MM:SS` with seconds below 60, and the fields read back as its whole seconds |
| Llm.NegativeFractionPromptTime | apps/server/src/services/llm.ts:15-17 | `-59.5` seconds is shown as `-1:-60`, where the whole-seconds label would be `-1:00` |
| Llm.PromptLine | apps/server/src/services/llm.ts:11-18 | a line is `[`, the time prefix, `] ` and the entry's text verbatim, with nothing else |
| Llm.PromptLines | apps/server/src/services/llm.ts:11-19 | one line per excerpt entry, in order |
| Llm.FormatTranscriptForPrompt | apps/server/src/services/llm.ts:7-21 | `formatTranscriptForPrompt`: the prompt lines of the excerpt joined by line breaks |
| Llm.PromptTextEmpty | apps/server/src/services/llm.ts:9-20 | the excerpt text is empty exactly when the excerpt has no entries |
| Llm.PromptLineSingle | apps/server/src/services/llm.ts:12-18 | the `[MM:SS]` prefix adds no line break |
| Llm.PromptLinesRecoverable | apps/server/src/services/llm.ts:11-20 | when no text holds a line break, splitting the excerpt at line breaks gives back its lines |
| Llm.FinitePair | apps/server/src/services/llm.ts:101-107 | the normalised pair has a finite timestamp |
| Llm.FinitePairs | apps/server/src/services/llm.ts:101-107 | the `map` keeps the number of pairs and normalises each one |
| Llm.AnswerOf | apps/server/src/services/llm.ts:92-99 | an answered request has a parsed reply with a non-empty pair list |
| Llm.Cascade | apps/server/src/services/llm.ts:34-113 | the chain of early returns: no client, an empty excerpt, a throwing call, an empty `output_text`, a throwing parse or no pairs each give the fallback; otherwise the parsed reply with normalised pairs |
| Llm.RequestEpisodeAnalysis | apps/server/src/services/llm.ts:27-114 | `requestEpisodeAnalysis`: the cascade with the heuristic analysis of the transcript as its fallback |
| Llm.CascadeFallsBack | apps/server/src/services/llm.ts:34-99 | without a usable answer the cascade returns its fallback |
| Llm.CascadeAnswers | apps/server/src/services/llm.ts:92-108 | with an answer the cascade returns the parsed reply with normalised pairs |
| Llm.FallsBackToHeuristic | apps/server/src/services/llm.ts:27-113 | every failure is caught: no client, an empty excerpt, a throwing call, an empty `output_text`, a throwing parse, or no pairs. Each gives exactly the heuristic analysis |
| Llm.UsesAnswer | apps/server/src/services/llm.ts:100-108 | on success, the pair count, summary, notes and every `childLine`/`partnerLine`/`context`/`tip` are kept, and a non-finite `ts` becomes 0 |
| Llm.ResultTimestampsFinite | apps/server/src/services/llm.ts:100-108 | every pair of the result has a finite timestamp, whichever branch produced it |
| Llm.NoClientNoCall | apps/server/src/services/llm.ts:33-36 | without a client the provider and the parser are never consulted |
| Llm.EmptyExcerptNoCall | apps/server/src/services/llm.ts:38-41 | an empty excerpt is not sent: the result is the heuristic, whatever the provider |
| Analysis.MessageOr | apps/server/src/services/analysis.ts:39 | `error instanceof Error ? error.message : fallback` |
| Analysis.Decide | apps/server/src/services/analysis.ts:18-45 | an empty transcript gives the fixed empty analysis, no model gives the heuristic, otherwise `llm` on resolve and the heuristic with the message on reject; all with their source |
| Analysis.DecideAnalysis | apps/server/src/services/analysis.ts:13-46 | `Decide` with the heuristic analysis of the transcript and meta as the fallback |
| Analysis.EmptyTranscript | apps/server/src/services/analysis.ts:18-23 | an empty transcript gets no pairs, the summary `No transcript provided.` and source `heuristic`, whatever the request would do |
| Analysis.NotAvailable | apps/server/src/services/analysis.ts:25-30 | without a configured model the result is the heuristic analysis, with source `heuristic` and no error |
| Analysis.RequestDecides | apps/server/src/services/analysis.ts:32-45 | the source is `llm` exactly when the request resolves, and then the analysis is the request's value. A rejection gives the heuristic analysis with the thrown message |
| Analysis.ErrorOnlyOnRejection | apps/server/src/services/analysis.ts:38-45 | an error appears only for a rejected request; a non-`Error` throw gives `Unknown analysis error` |
| Analysis.GenerateEpisodeAnalysis | apps/server/src/services/analysis.ts:13-46 | `generateEpisodeAnalysis` with `requestEpisodeAnalysis` as the request, which always resolves |
| Analysis.GenerateSource | apps/server/src/services/analysis.ts:32-37 | composed with the cascade, which never rejects, the source is `llm` exactly when the model is configured and the transcript is non-empty, and no error is ever attached |
| Analysis.SilentFallbackLabelledLlm | apps/server/src/services/analysis.ts:32-37 | an unanswered request on a non-empty transcript is labelled `llm`, although its analysis is the heuristic one |
| AnalyzeRoute.GetReply | apps/server/src/routes/analyze.ts:13-48 | the GET handler: 400 for a missing or blank id, 500 with the message when the lookup throws, a preview when the captions parse to entries, otherwise the metadata with the no-captions message |
| AnalyzeRoute.HandleGet | apps/server/src/routes/analyze.ts:13-48 | `GetReply` with the program's services and `fetchCaptionsWebVTT` |
| AnalyzeRoute.GetRefusesMissingId | apps/server/src/routes/analyze.ts:14-18 | the reply is the 400 `Missing videoId query parameter.` exactly when the id is missing or all whitespace |
| AnalyzeRoute.GetPreviewIff | apps/server/src/routes/analyze.ts:21-43 | past validation, a preview (the analysis, with its message chosen by source) comes exactly when the captions parse to at least one entry; otherwise the reply is the metadata with the no-captions message |
| AnalyzeRoute.GetNeverPreviews | apps/server/src/routes/analyze.ts:22-43 | with `fetchCaptionsWebVTT`, which never finds captions, GET is a 400, a 500 or the no-captions reply, never a preview |
| AnalyzeRoute.NumberOrZero | apps/server/src/routes/analyze.ts:67 | `Number(ts) \|\| 0`: never NaN, and any value other than NaN and 0 is kept |
| AnalyzeRoute.CleanedText | apps/server/src/routes/analyze.ts:66 | the text is trimmed, and is empty exactly when it was not a string or was all whitespace |
| AnalyzeRoute.CleanTranscript | apps/server/src/routes/analyze.ts:64-69 | no longer than the input; every kept entry has a non-empty trimmed text and a timestamp other than NaN |
| AnalyzeRoute.CleanTranscriptAppend | apps/server/src/routes/analyze.ts:64-69 | cleaning keeps request order: it distributes over concatenation |
| AnalyzeRoute.CleanTranscriptSound | apps/server/src/routes/analyze.ts:64-69 | every kept entry is the cleaning of some request element |
| AnalyzeRoute.CleanTranscriptComplete | apps/server/src/routes/analyze.ts:64-69 | every element whose cleaned text is non-empty is kept |
| AnalyzeRoute.CleanTranscriptMembers | apps/server/src/routes/analyze.ts:64-69 | an entry is kept exactly when it is the cleaning of an element and its text is non-empty |
| AnalyzeRoute.AllBlankCleansToNothing | apps/server/src/routes/analyze.ts:64-69 | when every cleaned text is empty, nothing is kept |
| AnalyzeRoute.CleanTranscriptEmpty | apps/server/src/routes/analyze.ts:64-74 | nothing survives exactly when no element has a string text with something besides whitespace |
| AnalyzeRoute.ValidatePost | apps/server/src/routes/analyze.ts:55-74 | the three early 400s in order, otherwise the id and the cleaned transcript |
| AnalyzeRoute.ValidationOrder | apps/server/src/routes/analyze.ts:55-74 | the three 400s come in order: a missing id, then a non-array or empty transcript, then every text blank. An accepted body keeps its id as given and a non-empty cleaned transcript |
| AnalyzeRoute.ShapeAnalysis | apps/server/src/routes/analyze.ts:83-99 | the reply body: the heuristic fallback for zero pairs, otherwise the analysis with its source and a `warning` for a non-empty error |
| AnalyzeRoute.PostReply | apps/server/src/routes/analyze.ts:50-104 | the POST handler: a validation refusal, a 500 when the lookup throws, or the shaped analysis of the cleaned transcript |
| AnalyzeRoute.HandlePost | apps/server/src/routes/analyze.ts:50-104 | `PostReply` with the program's services and `generateEpisodeAnalysis` |
| AnalyzeRoute.ShapeCases | apps/server/src/routes/analyze.ts:83-99 | zero pairs give the heuristic fallback with its message. Otherwise the analysis is passed on with its source, and with a `warning` exactly when a non-empty error came back |
| AnalyzeRoute.AcceptedAllMeaningful | apps/server/src/routes/analyze.ts:64-69 | every entry of a cleaned transcript survives the heuristic's own cleaning |
| AnalyzeRoute.UnconfiguredPostAnalyses | apps/server/src/routes/analyze.ts:76-99 | without a configured model an accepted POST never falls back: it returns the heuristic analysis with `min(10, n)` pairs (at least one), source `heuristic` and no warning |
| AnalyzeRoute.PostNeverWarns | apps/server/src/routes/analyze.ts:93-99 | a POST reply never carries a `warning`, and its source is `llm` exactly when the model is configured |
| AnalyzeRoute.PostMetaFailure | apps/server/src/routes/analyze.ts:100-103 | a throwing metadata lookup gives a 500 with the thrown message, or `Analysis failed.` for a non-`Error` |
| Controller.RecognisedText | apps/controller/src/App.tsx:428 | `(stt.text \|\| "").trim()` is empty exactly when the text is missing or all whitespace |
| Controller.ChunkLine | apps/controller/src/App.tsx:428-433 | no line for an empty recognition; otherwise exactly the trimmed text at the chunk's start |
| Controller.AddLines | apps/controller/src/App.tsx:432-435 | `[...prev, ...lines]` sorted stably by time, or the log itself when nothing is added |
| Controller.ApplyChunk | apps/controller/src/App.tsx:428-436 | the `transcribeChunk` update: no change for an empty recognition, otherwise the trimmed line at the chunk's start added and the log re-sorted |
| Controller.AddLinePlace | apps/controller/src/App.tsx:432-435 | on a sorted log the new line is inserted at one position, and everything else stays in order around it |
| Controller.AddLineEffect | apps/controller/src/App.tsx:432-436 | the log stays sorted, grows by one, and gains exactly the new line in its multiset |
| Controller.ApplyChunkEffect | apps/controller/src/App.tsx:428-436 | an empty recognition leaves the log unchanged; otherwise the log is the old one plus the line, stably sorted |
| Controller.UpdateTranscript | apps/controller/src/App.tsx:494-496 | the length, every time and every other row are unchanged, and row `index` gets the new text |
| Controller.UpdateTranscriptKeeps | apps/controller/src/App.tsx:494-496 | editing keeps the log sorted, and an index outside the log changes nothing |
| Controller.RemoveTranscript | apps/controller/src/App.tsx:499 | removal never lengthens the log |
| Controller.RemoveTranscriptShape | apps/controller/src/App.tsx:499 | exactly row `index` is deleted and the others keep their order; an index outside the log changes nothing |
| Controller.RemoveTranscriptSorted | apps/controller/src/App.tsx:499 | removal keeps the log sorted |
| Controller.EditedEntry | apps/controller/src/App.tsx:642 | the row an open editor belongs to is a row of the log |
| Controller.StartEdit | apps/controller/src/App.tsx:662 | the Edit button opens the editor on its row, with that row's text as the draft |
| Controller.SaveEdit | apps/controller/src/App.tsx:648-650 | Save: the trimmed draft written into the edited row, and the editor closed |
| Controller.SaveEditEffect | apps/controller/src/App.tsx:650 | Save writes the trimmed draft into the edited row only, keeping its time, and closes the editor |
| Controller.ClearLog | apps/controller/src/App.tsx:636 | Clear empties the log and closes the editor |
| Controller.RemoveAsWritten | apps/controller/src/App.tsx:498-504 | `removeTranscript` as written: the row is deleted and the editor is closed only when its own row goes |
| Controller.RemoveShifting | apps/controller/src/App.tsx:498-504 | the corrected removal: the editor's index also moves down by one when an earlier row goes |
| Controller.RemoveAsWrittenMovesEditor | apps/controller/src/App.tsx:498-504 | as written, deleting a row above the edited one moves the editor onto the next entry. Save then overwrites that entry with the draft |
| Controller.RemoveShiftingKeepsEditor | apps/controller/src/App.tsx:498-504 | with the index shifted, deleting another row leaves the editor on the same entry with the same draft; deleting its own row closes it |
| Controller.RemoveShiftingThenSave | apps/controller/src/App.tsx:498-504 | with the index shifted, deleting a row and then saving equals saving and then deleting |
| Controller.DisplayedPairs | apps/controller/src/App.tsx:169-175 | at most ten pairs are shown |
| Controller.DisplayedPairsSource | apps/controller/src/App.tsx:169-175 | the nested list wins whenever it is present (even empty), then the top-level list; the first ten of it are shown, or nothing |
| Controller.EmptyNestedHidesTop | apps/controller/src/App.tsx:170 | an empty nested array hides a non-empty top-level list |
| Controller.MicErrorMessage | apps/controller/src/App.tsx:389-403 | the message shown is never empty |
| Controller.MicKnownNames | apps/controller/src/App.tsx:390-397 | the three recognised exception names give their fixed text, whatever the exception's message |
| Controller.MicOtherErrors | apps/controller/src/App.tsx:398-403 | any other failure shows its own message when non-empty, and otherwise the default text |
| Controller.JobLine | apps/controller/src/App.tsx:426-431 | a job adds at most one line |
| Controller.ApplyJob | apps/controller/src/App.tsx:423-441 | one job's effect: its recognised line added with `ApplyChunk`, or nothing when it fails |
| Controller.ApplyJobAddsLine | apps/controller/src/App.tsx:423-441 | a job adds its line to the log, and a failure is swallowed |
| Controller.JobLines | apps/controller/src/App.tsx:375-377 | one addition per queued job, in queue order |
| Controller.ApplyJobs | apps/controller/src/App.tsx:375-377 | the queued jobs applied one after another, in queue order |
| Controller.RunQueueSorts | apps/controller/src/App.tsx:432-435 | from a sorted log, adding the lines job by job equals one stable sort of the old log followed by all new lines |
| Controller.ApplyJobsSorts | apps/controller/src/App.tsx:375-377 | running the queue on a sorted log gives `StableSort(old + new lines in queue order)` |
| Controller.ApplyJobsContents | apps/controller/src/App.tsx:375-377 | after the queue runs, the log is sorted and holds exactly the old lines and the new ones |
| Controller.RunQueueSkipsEmpty | apps/controller/src/App.tsx:429-431 | an empty addition in the middle of the queue changes nothing |
| Controller.FailedJobSkipped | apps/controller/src/App.tsx:375-377 | a failing job does not stop the later ones: the result is as if it had never been queued |
| Controller.ApplyJobsStep | apps/controller/src/App.tsx:375-377 | the queue runs jobs one at a time, in the order they were queued |
| Controller.ApplyJobKeepsSorted | apps/controller/src/App.tsx:432-440 | every job keeps the log sorted |
| Controller.CaptureSession.constructor | apps/controller/src/App.tsx:133-149 | not collecting, boundary 0, numbering at 0, empty queue, empty log |
| Controller.CaptureSession.OnStart | apps/controller/src/App.tsx:362-365 | the chunk begins at the player's position, or 0 without a player; nothing else changes |
| Controller.CaptureSession.OnDataAvailable | apps/controller/src/App.tsx:367-378 | the event is ignored when not collecting or when the data is empty. Otherwise a job at the previous boundary is queued under the next number, the number rises by one, and the boundary moves to the player's position or one slice further. Log and order invariants are kept |
| Controller.CaptureSession.RunJobs | apps/controller/src/App.tsx:417 | awaiting the queue: the log becomes `ApplyJobs` of the old log and queue, the queue empties, and the other fields are unchanged |
| Controller.CaptureSession.StopCollection | apps/controller/src/App.tsx:410-421 | collection stops, then the queued jobs finish |
| Controller.CaptureSession.StartSession | apps/controller/src/App.tsx:266-305 | the error is cleared first; a blank input or an input without an id shows its message and changes nothing else; otherwise capture stops, the log empties, the numbering restarts, and the error is the metadata failure's message or stays empty |
| Controller.CaptureSession.BeginAutoCollection | apps/controller/src/App.tsx:335-407 | an empty id does nothing. Otherwise capture is stopped, then resumes when the microphone starts, or stays stopped with the classified error message |
| Controller.NewSessionClearsError | apps/controller/src/App.tsx:266-307 | a new video whose metadata loads and whose microphone starts shows no error, whatever the previous session showed, and capture runs on an empty log |
| Controller.StopThenIgnore | apps/controller/src/App.tsx:410-411 | after `stopCollection` a further chunk is ignored: nothing is queued and the numbering stays |

## Left out

- Floating point. Caption times are integer milliseconds (the code divides by 1000), durations are whole seconds, and player positions are integer milliseconds. `Math.round` and `Math.floor` are modelled on these integers, so fractional halves are not represented.
- Clock.ClockLabel takes whole seconds, so it is exact for `formatTime` only on whole seconds and on non-negative times given as `floor(ms / 1000)`. For a negative time with a fraction of a second, `Math.floor(sec % 60)` rounds down once more, and ClockLabel does not state that. The controller renders its log and pair times with `formatTime` in the browser, which is not modelled. The prompt prefix has its own function, `Llm.PromptTime`, which covers the negative fractional case (`Llm.NegativeFractionPromptTime`).
- Unicode. Whitespace is the six ASCII whitespace characters, and lower-casing is ASCII only. JavaScript's `trim`, `\s` and `toLowerCase` also cover Unicode spaces and letters.
- Number parsing. `parseInt` and `Number` of digit strings are exact natural numbers; no overflow to `Infinity` is modelled. A POST `ts` arrives as the already-converted `Number(entry.ts)`.
- ISO 8601 durations. Only the `PT…` time form the regular expression reads is modelled. A duration with a day component (`P1DT2H3M`) contains no `PT`, so the code and the model both read the whole duration, hours and minutes included, as 0 seconds (`YouTube.DayComponentIsZero`, `YouTube.DayComponentExample`).
- Network and I/O are oracles given as parameters, or are left out:
  - `fetchVideoMeta` is a `MetaReply` parameter;
  - the OpenAI call is `respond`;
  - `JSON.parse` of its reply is `parse`;
  - the YouTube Data API requests, `process.env`, `console.error` and HTTP status plumbing are left out.
- The transcript limit. `LLM_TRANSCRIPT_LIMIT` is an integer parameter; a value that is not a number (giving `NaN`) is not modelled.
- The prompt's fixed wording and the JSON schema text are not modelled. Only the title, the duration and the excerpt sent to the provider are.
- The reply bodies' top-level `highlightPairs` copy is the analysis's own list in every reply, and is not repeated in `AnalyzeRoute.Body`.
- The POST `videoId` is only tested for presence (a missing or empty id). A non-string id is not modelled, and the id is passed on untrimmed, as in the code.
- AnalyzeRoute.HandlePost and AnalyzeRoute.HandleGet do not model requests that make the handler throw before its `try`. A `null` element of `transcript` fails at `entry.text` (analyze.ts:66). A repeated `videoId` query parameter arrives as an array, and `.trim` fails on it (analyze.ts:14). No 400 is sent; what the client receives then depends on how the Express version in use handles a rejected async handler. The model has no value for a `null` element or an array-valued query.
- Concurrency. The transcription queue is modelled as a sequence of jobs run in order, with each outcome given as input; promise scheduling and interleaving with user edits are not modelled.
- Controller.CaptureSession.BeginAutoCollection: the microphone, `MediaRecorder` and the recorder's options are one outcome parameter `mic`. The stream and recorder objects are not modelled.
- Controller.CaptureSession.StartSession: the id `extractVideoId` finds and the metadata outcome are parameters. The info text, the analysis, the metadata, the player's cued video and the autoplay flag are not fields of the session.
- The browser surface is not modelled: React rendering, the YouTube iframe player (its position is a parameter), `analyzeTranscripts`, the Cancel button, seeking, the `Math.random` shuffle of suggestions, and the `URL`-based `extractVideoId`.
- Server wiring and forwarding routes are not modelled. `index.ts`, `routes/stt.ts`, `services/whisper.ts`, `services/openaiClient.ts`, `routes/feedback.ts` and `routes/suggestions.ts` (with its 600–960 s filter) are not part of this model.
- A recognised line added while a row is being edited can also move the edited row down a place. Only the removal case is stated (see Findings).

## Findings

| source | as written | input that shows it | evidently intended | confidence | as-written member | corrected member |
|---|---|---|---|---|---|---|
| apps/controller/src/App.tsx:498-504 | `removeTranscript` clears the editor only when its own row is deleted, and leaves `editingIndex` unchanged when an earlier row goes | log `a@0, b@1000, c@2000` with row 1 (`b`) open and draft `b!`; delete row 0. The editor now sits on `c`, and Save gives `b@1000, b!@2000`, overwriting `c` | the editor stays on the entry it was opened on, so deleting another row and then saving equals saving and then deleting | not executed | Controller.RemoveAsWrittenMovesEditor | Controller.RemoveShiftingThenSave |
