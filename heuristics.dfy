/**
 * The local fallback analysis and the pronunciation scorer: whitespace cleaning, the partner
 * line, the highlight loop that picks templates round-robin, and the bag-of-words score.
 */
module Heuristics {
  import opened Wrappers
  import opened Text
  import opened Episode

  const Encouragements: seq<string> := [
    "Praise the effort and repeat slowly together.",
    "Clap along to the rhythm to help with pronunciation.",
    "Switch roles and let your child lead the phrase.",
    "Add gestures to make the line easier to remember.",
    "Turn it into a short chant and repeat three times.",
    "Use a soft voice first, then a brave voice.",
    "Try saying the line while acting it out.",
    "Ask what the line might mean and rephrase together.",
    "Highlight the key word by stretching it out.",
    "Celebrate with a high-five after repeating."
  ]

  const ContextTemplates: seq<string> := [
    "Peppa is sharing a playful moment—echo the line so everyone joins the fun.",
    "This line is great for turn-taking practice between Peppa and Buddy.",
    "Use this moment to emphasize kind, friendly language.",
    "Great opportunity to focus on clear pronunciation of the key words.",
    "Try repeating the phrase with different expressions to build confidence."
  ]

  /** The number of highlights produced when the caller gives no limit. */
  const DefaultLimit := 10

  /** `text.replace(/\s+/g, ' ').trim()`. */
  function CleanText(s: string): (r: string)
    ensures IsTrimmed(r) && NoSpaceRuns(r) && OnlyPlainSpaces(r)
    ensures Visible(r) == Visible(s)
  {
    var c := CollapseSpaces(s);
    var r := Trim(c);
    var a := LeadingSpaces(c);
    SliceKeepsNoSpaceRuns(c, a, |c| - TrailingSpaces(c[a..]));
    TrimKeepsVisible(c);
    r
  }

  /** Cleaning yields the empty string exactly for all-whitespace input. */
  lemma CleanTextEmpty(s: string)
    ensures CleanText(s) == [] <==> AllSpaces(s)
  {
    var r := CleanText(s);
    VisibleEmpty(s);
    VisibleEmpty(r);
    if r != [] {
      assert !IsSpace(r[0]);
    }
  }

  /** Cleaning twice is cleaning once. */
  lemma CleanTextIdempotent(s: string)
    ensures CleanText(CleanText(s)) == CleanText(s)
  {
    var r := CleanText(s);
    CollapseNormalFixpoint(r);
    TrimOfTrimmed(r);
  }

  const TogetherLine := "Let’s try that line together!"
  const SayOpen := "Let’s say: “"
  const SayClose := "”"

  /** `buildPartnerLine`: an invitation to repeat `original`. */
  function PartnerLine(original: string): string {
    if original == [] then TogetherLine else SayOpen + original + SayClose
  }

  /** The partner line quotes a non-empty line verbatim, right after the opening words. */
  lemma PartnerLineQuotes(original: string)
    ensures original == [] ==> PartnerLine(original) == TogetherLine
    ensures original != [] ==> var r := PartnerLine(original);
              |r| == |SayOpen| + |original| + |SayClose| && r[..|SayOpen|] == SayOpen
              && OccursAt(r, original, |SayOpen|)
  {
  }

  /** Different lines get different partner lines: the quoted line can be read back. */
  lemma PartnerLineInjective(a: string, b: string)
    requires PartnerLine(a) == PartnerLine(b)
    ensures a == b
  {
    PartnerLineQuotes(a);
    PartnerLineQuotes(b);
    assert TogetherLine[..|SayOpen|] != SayOpen by {
      assert TogetherLine[6] != SayOpen[6];
    }
    if a != [] && b != [] {
      assert PartnerLine(a)[|SayOpen|..|SayOpen| + |a|] == a;
    }
  }

  /** An entry after cleaning: its timestamp made finite and its text cleaned. */
  datatype Cleaned = Cleaned(ts: int, text: string)

  function CleanEntry(e: TranscriptEntry): Cleaned {
    Cleaned(FiniteOrZero(e.ts), CleanText(e.text))
  }

  /** The `map` then `filter` that builds `meaningful`. */
  function Meaningful(transcript: seq<TranscriptEntry>): (r: seq<Cleaned>)
    ensures |r| <= |transcript|
    ensures forall i :: 0 <= i < |r| ==> r[i].text != [] && IsTrimmed(r[i].text)
  {
    if transcript == [] then []
    else
      var c := CleanEntry(transcript[|transcript| - 1]);
      Meaningful(transcript[..|transcript| - 1]) + (if c.text == [] then [] else [c])
  }

  /** `meaningful` keeps input order: it distributes over concatenation. */
  lemma {:induction false} MeaningfulAppend(a: seq<TranscriptEntry>, b: seq<TranscriptEntry>)
    ensures Meaningful(a + b) == Meaningful(a) + Meaningful(b)
    decreases |b|
  {
    if b == [] {
      assert a + b == a;
    } else {
      assert (a + b)[..|a + b| - 1] == a + b[..|b| - 1];
      MeaningfulAppend(a, b[..|b| - 1]);
    }
  }

  lemma {:induction false} MeaningfulComplete(transcript: seq<TranscriptEntry>, i: nat)
    requires i < |transcript| && CleanEntry(transcript[i]).text != []
    ensures CleanEntry(transcript[i]) in Meaningful(transcript)
  {
    var front := transcript[..|transcript| - 1];
    if i < |front| {
      assert front[i] == transcript[i];
      MeaningfulComplete(front, i);
    }
  }

  lemma {:induction false} MeaningfulSound(transcript: seq<TranscriptEntry>, c: Cleaned)
    requires c in Meaningful(transcript)
    ensures c.text != [] && exists i :: 0 <= i < |transcript| && CleanEntry(transcript[i]) == c
  {
    if transcript != [] {
      var front := transcript[..|transcript| - 1];
      if c in Meaningful(front) {
        MeaningfulSound(front, c);
        var i :| 0 <= i < |front| && CleanEntry(front[i]) == c;
        assert transcript[i] == front[i];
      } else {
        assert CleanEntry(transcript[|transcript| - 1]) == c;
      }
    }
  }

  /** An entry is kept, cleaned, exactly when its text is not all whitespace. */
  lemma MeaningfulMembers(transcript: seq<TranscriptEntry>, c: Cleaned)
    ensures c in Meaningful(transcript) <==>
            c.text != [] && exists i :: 0 <= i < |transcript| && CleanEntry(transcript[i]) == c
  {
    if c in Meaningful(transcript) {
      MeaningfulSound(transcript, c);
    } else if c.text != [] {
      forall i | 0 <= i < |transcript| ensures CleanEntry(transcript[i]) != c {
        if CleanEntry(transcript[i]) == c {
          MeaningfulComplete(transcript, i);
        }
      }
    }
  }

  /** Entries whose text is not all whitespace are all kept. */
  lemma {:induction false} MeaningfulKeepsVisible(transcript: seq<TranscriptEntry>)
    requires forall i :: 0 <= i < |transcript| ==> !AllSpaces(transcript[i].text)
    ensures |Meaningful(transcript)| == |transcript|
  {
    if transcript != [] {
      CleanTextEmpty(transcript[|transcript| - 1].text);
      MeaningfulKeepsVisible(transcript[..|transcript| - 1]);
    }
  }

  /** The highlight made from the `i`-th meaningful entry, with the templates picked round-robin. */
  function HighlightAt(i: nat, c: Cleaned, tips: seq<string>, contexts: seq<string>): HighlightPair
    requires tips != [] && contexts != []
  {
    HighlightPair(Finite(c.ts), c.text, PartnerLine(c.text), contexts[i % |contexts|], tips[i % |tips|])
  }

  /** The highlights the loop has pushed after `n` rounds. */
  function PairsUpTo(m: seq<Cleaned>, n: nat, tips: seq<string>, contexts: seq<string>): (r: seq<HighlightPair>)
    requires n <= |m| && tips != [] && contexts != []
    ensures |r| == n
  {
    if n == 0 then [] else PairsUpTo(m, n - 1, tips, contexts) + [HighlightAt(n - 1, m[n - 1], tips, contexts)]
  }

  /** How many rounds the loop makes: it stops at the end of the list or once `limit` are pushed. */
  function PairCount(n: nat, limit: int): (k: nat)
    ensures k <= n
    ensures limit <= 0 ==> k == 0
    ensures limit > 0 ==> k == if limit < n then limit else n
  {
    if limit <= 0 then 0 else if limit < n then limit else n
  }

  const LocalSummaryOpen := "Highlights for “"
  const LocalSummaryClose := "” using locally captured Whisper phrases."
  const DefaultSummary := "Highlights generated from the latest Whisper transcript."

  /** `meta?.title ? … : …`: the summary names the episode when it has a title. */
  function HeuristicSummary(meta: Option<EpisodeMeta>): string {
    if meta.Some? && meta.value.title != [] then LocalSummaryOpen + meta.value.title + LocalSummaryClose
    else DefaultSummary
  }

  /** The title is quoted verbatim exactly when it is present and non-empty; otherwise the text is fixed. */
  lemma HeuristicSummaryTitle(meta: Option<EpisodeMeta>)
    ensures meta.Some? && meta.value.title != [] ==>
              OccursAt(HeuristicSummary(meta), meta.value.title, |LocalSummaryOpen|)
    ensures meta.None? || meta.value.title == [] ==> HeuristicSummary(meta) == DefaultSummary
  {
    if meta.Some? && meta.value.title != [] {
      var r := HeuristicSummary(meta);
      assert r[|LocalSummaryOpen|..|LocalSummaryOpen| + |meta.value.title|] == meta.value.title;
    }
  }

  /** `buildHeuristicAnalysis`, as a function of its inputs. */
  function HeuristicAnalysis(transcript: seq<TranscriptEntry>, meta: Option<EpisodeMeta>, limit: int): EpisodeAnalysis {
    var m := Meaningful(transcript);
    EpisodeAnalysis(PairsUpTo(m, PairCount(|m|, limit), Encouragements, ContextTemplates), Some(HeuristicSummary(meta)), None)
  }

  /** Round `i` pushes the highlight for the `i`-th meaningful entry and keeps the earlier ones. */
  lemma {:induction false} PairsUpToAt(m: seq<Cleaned>, n: nat, i: nat, tips: seq<string>, contexts: seq<string>)
    requires i < n <= |m| && tips != [] && contexts != []
    ensures PairsUpTo(m, n, tips, contexts)[i] == HighlightAt(i, m[i], tips, contexts)
    decreases n
  {
    if i < n - 1 {
      PairsUpToAt(m, n - 1, i, tips, contexts);
    }
  }

  /**
   * The heuristic analysis has `min(limit, #meaningful)` pairs; pair `i` comes from the `i`-th
   * meaningful entry, with tip `i mod 10` and context `i mod 5`.
   */
  lemma HeuristicAnalysisPairs(transcript: seq<TranscriptEntry>, meta: Option<EpisodeMeta>, limit: int, i: nat)
    requires i < |HeuristicAnalysis(transcript, meta, limit).highlightPairs|
    ensures var m := Meaningful(transcript);
            var p := HeuristicAnalysis(transcript, meta, limit).highlightPairs[i];
            |HeuristicAnalysis(transcript, meta, limit).highlightPairs| == PairCount(|m|, limit)
            && i < |m| && p.ts == Finite(m[i].ts) && p.childLine == m[i].text
            && p.partnerLine == PartnerLine(m[i].text)
            && p.tip == Encouragements[i % 10] && p.context == ContextTemplates[i % 5]
  {
    var m := Meaningful(transcript);
    PairsUpToAt(m, PairCount(|m|, limit), i, Encouragements, ContextTemplates);
  }

  lemma PairsUpToStep(m: seq<Cleaned>, i: nat, tips: seq<string>, contexts: seq<string>)
    requires i < |m| && tips != [] && contexts != []
    ensures PairsUpTo(m, i + 1, tips, contexts) == PairsUpTo(m, i, tips, contexts) +
              [HighlightPair(Finite(m[i].ts), m[i].text, PartnerLine(m[i].text), contexts[i % |contexts|], tips[i % |tips|])]
  {
  }

  /** `buildHeuristicAnalysis`: the loop pushes one highlight per meaningful entry until `limit`. */
  method BuildHeuristicAnalysis(transcript: seq<TranscriptEntry>, meta: Option<EpisodeMeta>, limit: int)
    returns (analysis: EpisodeAnalysis)
    ensures analysis == HeuristicAnalysis(transcript, meta, limit)
  {
    var meaningful := Meaningful(transcript);
    var highlights := CollectHighlights(meaningful, limit, Encouragements, ContextTemplates);
    analysis := EpisodeAnalysis(highlights, Some(HeuristicSummary(meta)), None);
  }

  /** The loop of `buildHeuristicAnalysis`, over the meaningful entries and the two template lists. */
  method CollectHighlights(meaningful: seq<Cleaned>, limit: int, tips: seq<string>, contexts: seq<string>)
    returns (highlights: seq<HighlightPair>)
    requires tips != [] && contexts != []
    ensures highlights == PairsUpTo(meaningful, PairCount(|meaningful|, limit), tips, contexts)
  {
    highlights := [];
    var i := 0;
    while i < |meaningful| && |highlights| < limit
      invariant i <= |meaningful| && (i == 0 || i <= limit)
      invariant highlights == PairsUpTo(meaningful, i, tips, contexts)
    {
      var entry := meaningful[i];
      var encouragement := tips[i % |tips|];
      var context := contexts[i % |contexts|];
      PairsUpToStep(meaningful, i, tips, contexts);
      highlights := highlights + [HighlightPair(Finite(entry.ts), entry.text, PartnerLine(entry.text), context, encouragement)];
      i := i + 1;
    }
    assert i == PairCount(|meaningful|, limit);
  }

  /** The words of a phrase: cleaned, lower-cased, split on spaces, empty pieces dropped. */
  function Words(s: string): seq<string> {
    RemoveEmpty(Split(Lower(CleanText(s)), " "))
  }

  /** Every word is non-empty and holds no space. */
  lemma WordsShape(s: string)
    ensures forall i :: 0 <= i < |Words(s)| ==> Words(s)[i] != [] && ' ' !in Words(s)[i]
  {
    var parts := Split(Lower(CleanText(s)), " ");
    forall i | 0 <= i < |parts| ensures ' ' !in parts[i] {
      ContainsChar(parts[i], ' ');
    }
    var r := Words(s);
    assert forall i :: 0 <= i < |r| ==> r[i] in parts;
  }

  /** A split whose first piece is empty comes from an empty string or one that opens with the separator. */
  lemma SplitFirstEmpty(s: string)
    requires Split(s, " ")[0] == []
    ensures s == [] || s[0] == ' '
  {
    var parts := Split(s, " ");
    if |parts| > 1 {
      assert Join(parts, " ") == parts[0] + " " + Join(parts[1..], " ");
    }
  }

  /** A phrase has no words exactly when it is all whitespace. */
  lemma WordsEmpty(s: string)
    ensures Words(s) == [] <==> AllSpaces(s)
  {
    var c := CleanText(s);
    CleanTextEmpty(s);
    var l := Lower(c);
    var parts := Split(l, " ");
    if c != [] {
      assert l[0] == LowerChar(c[0]) && !IsSpace(c[0]);
      if parts[0] == [] {
        SplitFirstEmpty(l);
      }
      assert parts[0] in RemoveEmpty(parts);
    } else {
      assert l == [];
      assert parts == [[]];
    }
  }

  /** `attemptWords.filter((word) => targetWords.includes(word)).length`. */
  function Matches(attempt: seq<string>, target: seq<string>): (r: nat)
    ensures r <= |attempt|
  {
    if attempt == [] then 0
    else Matches(attempt[..|attempt| - 1], target) + (if attempt[|attempt| - 1] in target then 1 else 0)
  }

  lemma {:induction false} MatchesAllFound(attempt: seq<string>, target: seq<string>)
    requires forall i :: 0 <= i < |attempt| ==> attempt[i] in target
    ensures Matches(attempt, target) == |attempt|
  {
    if attempt != [] {
      MatchesAllFound(attempt[..|attempt| - 1], target);
    }
  }

  /** `Math.round((m / t) * 100)` in integers: the nearest integer, halves rounded up. */
  function RoundedPercent(m: nat, t: nat): (r: nat)
    requires t > 0
    ensures 2 * t * r <= 200 * m + t < 2 * t * (r + 1)
  {
    (200 * m + t) / (2 * t)
  }

  lemma MulMono(t: nat, a: int, b: int)
    requires a <= b
    ensures t * a <= t * b
  {
  }

  /** The score reaches `k` exactly when `m / t` reaches `k - 1/2`. */
  lemma RoundedPercentAtLeast(m: nat, t: nat, k: int)
    requires t > 0
    ensures RoundedPercent(m, t) >= k <==> 200 * m + t >= 2 * t * k
  {
    var r := RoundedPercent(m, t);
    if r >= k {
      MulMono(2 * t, k, r);
    } else {
      MulMono(2 * t, r + 1, k);
    }
  }

  const PickPhraseMessage := "먼저 한 구절을 골라 함께 읽어보세요!"
  const PickPhraseTip := "짧은 문장을 선택해서 천천히 따라 읽도록 도와주세요."
  const HighMessage := "너무 잘했어요! 거의 완벽하게 따라 했어요!"
  const MiddleMessage := "좋은 시도였어요! 조금만 더 또렷하게 말해볼까요?"
  const LowMessage := "처음에는 어렵지만 괜찮아요. 천천히 한 단어씩 따라 해봐요."
  const HighTip := "이번에는 감정을 넣어서 연기하듯 말해볼까요?"
  const MiddleTip := "모음 소리를 길게 늘려 말하면 훨씬 또렷해져요."
  const LowTip := "아이와 함께 입모양을 크게 하면서 천천히 따라 해보세요."

  datatype Feedback = Feedback(score: int, message: string, tip: string)

  /**
   * The score of `buildAttemptFeedback` on the two word lists: 0 when a side is empty, else
   * `Math.round(100 * matches / |target|)`.
   */
  function WordScore(target: seq<string>, attempt: seq<string>): (score: nat)
    ensures target == [] || attempt == [] ==> score == 0
    ensures target != [] && attempt != [] ==>
              var t, m := |target|, Matches(attempt, target);
              2 * t * score <= 200 * m + t < 2 * t * (score + 1)
  {
    if target == [] || attempt == [] then 0 else RoundedPercent(Matches(attempt, target), |target|)
  }

  /** `buildAttemptFeedback`: the score with the message and tip of its tier. */
  function AttemptFeedback(expected: string, attempt: string): (f: Feedback)
    ensures f.score == WordScore(Words(expected), Words(attempt))
    ensures Words(expected) == [] || Words(attempt) == [] ==> f == Feedback(0, PickPhraseMessage, PickPhraseTip)
    ensures Words(expected) != [] && Words(attempt) != [] ==>
              (f.score >= 80 ==> f.message == HighMessage && f.tip == HighTip)
              && (50 <= f.score < 80 ==> f.message == MiddleMessage && f.tip == MiddleTip)
              && (f.score < 50 ==> f.message == LowMessage && f.tip == LowTip)
  {
    var targetWords := Words(expected);
    var attemptWords := Words(attempt);
    if targetWords == [] || attemptWords == [] then Feedback(0, PickPhraseMessage, PickPhraseTip)
    else
      var score := WordScore(targetWords, attemptWords);
      var message := if score >= 80 then HighMessage else if score >= 50 then MiddleMessage else LowMessage;
      var tip := if score >= 80 then HighTip else if score >= 50 then MiddleTip else LowTip;
      Feedback(score, message, tip)
  }

  /** An attempt made of exactly the target words scores 100. */
  lemma IdenticalWordsScoreFull(w: seq<string>)
    requires w != []
    ensures WordScore(w, w) == 100
  {
    MatchesAllFound(w, w);
    var t := |w|;
    var r := WordScore(w, w);
    if r >= 101 {
      MulMono(2 * t, 101, r);
    } else if r <= 99 {
      MulMono(2 * t, r + 1, 100);
    }
  }

  /** Repeating a non-blank target phrase exactly scores 100, in the top tier. */
  lemma IdenticalAttemptScoresFull(s: string)
    requires !AllSpaces(s)
    ensures AttemptFeedback(s, s).score == 100 && AttemptFeedback(s, s).message == HighMessage
  {
    WordsEmpty(s);
    IdenticalWordsScoreFull(Words(s));
  }

  /** A string in collapsed, trimmed form is its own cleaning. */
  lemma CleanTextOfClean(s: string)
    requires IsTrimmed(s) && NoSpaceRuns(s) && OnlyPlainSpaces(s)
    ensures CleanText(s) == s
  {
    CollapseNormalFixpoint(s);
    TrimOfTrimmed(s);
  }

  /** A phrase already in clean, lower-case form splits into its space-separated words. */
  lemma WordsOfTwo()
    ensures Words("a a") == ["a", "a"]
  {
    CleanTextOfClean("a a");
    LowerOfTwo();
    SplitOfTwo();
    RemoveEmptyKeeps(["a", "a"]);
  }

  lemma LowerOfTwo()
    ensures Lower("a a") == "a a"
  {
    assert forall i :: 0 <= i < 3 ==> Lower("a a")[i] == "a a"[i];
  }

  lemma SplitOfTwo()
    ensures Split("a a", " ") == ["a", "a"]
  {
    assert OccursAt("a a", " ", 1);
    assert "a a"[0..1][0] == 'a';
    assert FindFirst("a a", " ") == Some(1);
    assert FindFirst("a", " ") == None;
    assert "a a"[..1] == "a" && "a a"[2..] == "a";
  }

  lemma WordsOfOne()
    ensures Words("a") == ["a"]
  {
    CleanTextOfClean("a");
    assert Lower("a") == "a" by {
      assert Lower("a")[0] == 'a';
    }
    assert FindFirst("a", " ") == None;
    RemoveEmptyKeeps(["a"]);
  }

  /** The score is not capped: every repetition of a matching word counts again. */
  lemma RepeatedWordsExceedFull()
    ensures WordScore(["a"], ["a", "a"]) == 200
  {
    MatchesAllFound(["a", "a"], ["a"]);
  }

  /** The phrase `"a a"` tried against `"a"` scores 200. */
  lemma RepeatedPhraseExceedsFull()
    ensures WordScore(Words("a"), Words("a a")) == 200
  {
    WordsOfOne();
    WordsOfTwo();
    RepeatedWordsExceedFull();
  }
}
