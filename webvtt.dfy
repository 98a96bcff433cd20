/**
 * The caption parser: a loose subset of the cue timings and timestamps of W3C WebVTT
 * (section 4.1 of the WebVTT specification). The document is cut into blocks at blank lines;
 * a block that holds a line with `-->` becomes one transcript entry whose time is the first
 * `HH:MM:SS.mmm` timestamp before the arrow and whose text is the block's later lines joined
 * with single spaces. The entries come out stably sorted by time.
 */
module WebVtt {
  import opened Wrappers
  import opened Text
  import opened Decimal
  import opened Sorting
  import opened Episode

  const MsPerSecond := 1000
  const MsPerMinute := 60000
  const MsPerHour := 3600000

  /** `\d{2}:\d{2}:\d{2}\.\d{3}` matches `s` at index `i`. */
  predicate TimecodeAt(s: string, i: nat) {
    i + 12 <= |s|
    && IsDigit(s[i]) && IsDigit(s[i + 1]) && s[i + 2] == ':'
    && IsDigit(s[i + 3]) && IsDigit(s[i + 4]) && s[i + 5] == ':'
    && IsDigit(s[i + 6]) && IsDigit(s[i + 7]) && s[i + 8] == '.'
    && IsDigit(s[i + 9]) && IsDigit(s[i + 10]) && IsDigit(s[i + 11])
  }

  /** The time the match at `i` denotes: hours, minutes, seconds and milliseconds, with no range check. */
  function TimecodeMs(s: string, i: nat): nat
    requires TimecodeAt(s, i)
  {
    var hours := 10 * DigitValue(s[i]) + DigitValue(s[i + 1]);
    var minutes := 10 * DigitValue(s[i + 3]) + DigitValue(s[i + 4]);
    var seconds := 10 * DigitValue(s[i + 6]) + DigitValue(s[i + 7]);
    var millis := 100 * DigitValue(s[i + 9]) + 10 * DigitValue(s[i + 10]) + DigitValue(s[i + 11]);
    hours * MsPerHour + minutes * MsPerMinute + seconds * MsPerSecond + millis
  }

  /** The leftmost match at index `from` or later. */
  function FindTimecode(s: string, from: nat): (r: Option<nat>)
    ensures r.Some? ==> from <= r.value && TimecodeAt(s, r.value)
    ensures r.Some? ==> forall j :: from <= j < r.value ==> !TimecodeAt(s, j)
    ensures r.None? ==> forall j :: from <= j ==> !TimecodeAt(s, j)
    decreases |s| - from
  {
    if from + 12 > |s| then None
    else if TimecodeAt(s, from) then Some(from)
    else FindTimecode(s, from + 1)
  }

  /**
   * `parseTimecode`: the time of the leftmost timestamp anywhere in `value` (the pattern is not
   * anchored), or `None` when there is none.
   */
  function ParseTimecode(value: string): (r: Option<nat>)
    ensures r.None? <==> forall i: nat :: !TimecodeAt(value, i)
    ensures r.Some? ==> exists i: nat :: TimecodeAt(value, i) && r.value == TimecodeMs(value, i)
                                         && forall j: nat :: j < i ==> !TimecodeAt(value, j)
  {
    match FindTimecode(value, 0)
    case None => None
    case Some(i) => Some(TimecodeMs(value, i))
  }

  /** The canonical `HH:MM:SS.mmm` rendering of a time below 100 hours. */
  function FormatTimecode(ms: nat): (r: string)
    requires ms < 100 * MsPerHour
    ensures |r| == 12 && TimecodeAt(r, 0)
  {
    var a := ms / 1000;
    var b := a / 60;
    var h := b / 60;
    var m := b % 60;
    var sec := a % 60;
    var x := ms % 1000;
    [DigitChar(h / 10), DigitChar(h % 10), ':', DigitChar(m / 10), DigitChar(m % 10), ':',
     DigitChar(sec / 10), DigitChar(sec % 10), '.', DigitChar(x / 100), DigitChar(x / 10 % 10), DigitChar(x % 10)]
  }

  lemma FormatTimecodeValue(ms: nat)
    requires ms < 100 * MsPerHour
    ensures TimecodeMs(FormatTimecode(ms), 0) == ms
  {
    var a := ms / 1000;
    var b := a / 60;
    var h := b / 60;
    assert ms == 1000 * a + ms % 1000;
    assert a == 60 * b + a % 60;
    assert b == 60 * h + b % 60;
    var x := ms % 1000;
    assert x == 100 * (x / 100) + 10 * (x / 10 % 10) + x % 10;
  }

  /** A rendered timestamp reads back as its time, whatever follows it. */
  lemma {:induction false} TimecodeRoundTrip(ms: nat, rest: string)
    requires ms < 100 * MsPerHour
    ensures ParseTimecode(FormatTimecode(ms) + rest) == Some(ms)
  {
    var f := FormatTimecode(ms);
    var s := f + rest;
    assert TimecodeAt(s, 0) by {
      assert s[..12] == f;
    }
    FormatTimecodeValue(ms);
    assert TimecodeMs(s, 0) == TimecodeMs(f, 0) by {
      assert s[..12] == f;
    }
  }

  /** The pattern is not anchored: a three-digit hour field matches from its second digit. */
  lemma UnanchoredExample()
    ensures ParseTimecode("123:45:07.500") == Some(23 * MsPerHour + 45 * MsPerMinute + 7 * MsPerSecond + 500)
  {
    var s := "123:45:07.500";
    assert !TimecodeAt(s, 0);
    assert TimecodeAt(s, 1);
  }

  /** Hours must have two digits: a one-digit hour field gives no timestamp. */
  lemma ShortHoursExample()
    ensures ParseTimecode("1:02:03.456") == None
  {
  }

  /** `s.split('\n\n').map(trim).filter(Boolean)` after the CRLF rewrite: the non-empty blocks. */
  function Blocks(source: string): (r: seq<string>)
    ensures forall i :: 0 <= i < |r| ==> r[i] != [] && IsTrimmed(r[i])
  {
    var trimmed := TrimAll(Split(NormalizeNewlines(source), "\n\n"));
    var r := RemoveEmpty(trimmed);
    assert forall i :: 0 <= i < |r| ==> r[i] in trimmed;
    r
  }

  function TrimAll(parts: seq<string>): (r: seq<string>)
    ensures |r| == |parts| && forall i :: 0 <= i < |r| ==> r[i] == Trim(parts[i])
    ensures forall x :: x in r ==> IsTrimmed(x)
  {
    seq(|parts|, i requires 0 <= i < |parts| => Trim(parts[i]))
  }

  /** `chunk.split('\n').filter(Boolean)`. */
  function Lines(chunk: string): seq<string> {
    RemoveEmpty(Split(chunk, "\n"))
  }

  const Arrow := "-->"

  function FindLineFrom(lines: seq<string>, from: nat): (r: Option<nat>)
    ensures r.Some? ==> from <= r.value < |lines| && Contains(lines[r.value], Arrow)
    ensures r.Some? ==> forall j :: from <= j < r.value ==> !Contains(lines[j], Arrow)
    ensures r.None? ==> forall j :: from <= j < |lines| ==> !Contains(lines[j], Arrow)
    decreases |lines| - from
  {
    if from >= |lines| then None
    else if Contains(lines[from], Arrow) then Some(from)
    else FindLineFrom(lines, from + 1)
  }

  /** `lines.findIndex((line) => line.includes('-->'))`, with `None` for -1. */
  function TimeLineIndex(lines: seq<string>): (r: Option<nat>)
    ensures r.Some? ==> r.value < |lines| && Contains(lines[r.value], Arrow)
                        && forall j :: 0 <= j < r.value ==> !Contains(lines[j], Arrow)
    ensures r.None? <==> forall j :: 0 <= j < |lines| ==> !Contains(lines[j], Arrow)
  {
    FindLineFrom(lines, 0)
  }

  /** `timeLine.split('-->')[0].trim()`: the start time text. */
  function StartRaw(timeLine: string): string {
    Trim(Split(timeLine, Arrow)[0])
  }

  /** One block: an entry, or `None` when the block is skipped. */
  function ParseCue(chunk: string): (r: Option<TranscriptEntry>)
    ensures r.Some? ==> r.value.text != [] && IsTrimmed(r.value.text) && r.value.ts.Finite?
  {
    var lines := Lines(chunk);
    if |lines| < 2 then None
    else
      match TimeLineIndex(lines)
      case None => None
      case Some(k) =>
        match ParseTimecode(StartRaw(lines[k]))
        case None => None
        case Some(ms) =>
          var text := Trim(Join(lines[k + 1..], " "));
          if text == [] then None else Some(TranscriptEntry(text, Finite(ms)))
  }

  /** The entries of the blocks that parse, in block order (the loop's pushes). */
  function Cues(blocks: seq<string>): (r: seq<TranscriptEntry>)
    ensures |r| <= |blocks|
    ensures forall i :: 0 <= i < |r| ==> r[i].text != [] && IsTrimmed(r[i].text) && r[i].ts.Finite?
  {
    if blocks == [] then []
    else
      var front := Cues(blocks[..|blocks| - 1]);
      match ParseCue(blocks[|blocks| - 1])
      case None => front
      case Some(e) => front + [e]
  }

  /** What `parseWebVTT` returns: the cues of the blocks, stably sorted by time. */
  function ParseWebVTTSpec(source: string): seq<TranscriptEntry> {
    StableSort(Cues(Blocks(source)), EntryMs)
  }

  /** `parseWebVTT`: the loop over blocks pushes each parsed cue, then the array is sorted in place. */
  method ParseWebVTT(source: string) returns (entries: seq<TranscriptEntry>)
    ensures entries == ParseWebVTTSpec(source)
  {
    var chunks := Blocks(source);
    var results := CollectCues(chunks);
    entries := SortEntries(results);
  }

  lemma CuesStep(blocks: seq<string>, i: nat)
    requires i < |blocks|
    ensures Cues(blocks[..i + 1]) == Cues(blocks[..i]) + (if ParseCue(blocks[i]).Some? then [ParseCue(blocks[i]).value] else [])
  {
    assert blocks[..i + 1][..i] == blocks[..i];
  }

  /** The `for (const chunk of chunks)` loop: a cue is pushed for every block that parses. */
  method CollectCues(chunks: seq<string>) returns (results: seq<TranscriptEntry>)
    ensures results == Cues(chunks)
  {
    results := [];
    var i := 0;
    while i < |chunks|
      invariant 0 <= i <= |chunks|
      invariant results == Cues(chunks[..i])
    {
      CuesStep(chunks, i);
      var cue := ParseCue(chunks[i]);
      if cue.Some? {
        results := results + [cue.value];
      }
      i := i + 1;
    }
    assert chunks[..i] == chunks;
  }

  /** `results.sort((a, b) => a.ts - b.ts)` on an array holding the entries. */
  method SortEntries(results: seq<TranscriptEntry>) returns (sorted: seq<TranscriptEntry>)
    ensures sorted == StableSort(results, EntryMs)
  {
    var a := new TranscriptEntry[|results|](j requires 0 <= j < |results| => results[j]);
    assert a[..] == results;
    SortInPlace(a, EntryMs);
    sorted := a[..];
  }

  /** The output is ordered by time. */
  lemma ParseWebVTTSorted(source: string)
    ensures SortedBy(ParseWebVTTSpec(source), EntryMs)
  {
    StableSortSorted(Cues(Blocks(source)), EntryMs);
  }

  /** Entries with the same time keep the order of their blocks. */
  lemma ParseWebVTTStable(source: string, t: int)
    ensures KeyFilter(ParseWebVTTSpec(source), EntryMs, t) == KeyFilter(Cues(Blocks(source)), EntryMs, t)
  {
    StableSortIsStable(Cues(Blocks(source)), EntryMs, t);
  }

  /** Sorting neither loses nor adds entries, and there is at most one entry per block. */
  lemma ParseWebVTTCount(source: string)
    ensures multiset(ParseWebVTTSpec(source)) == multiset(Cues(Blocks(source)))
    ensures |ParseWebVTTSpec(source)| <= |Blocks(source)|
  {
    StableSortPermutes(Cues(Blocks(source)), EntryMs);
  }

  /** Every entry has a finite time and a non-empty text with no whitespace at either end. */
  lemma ParseWebVTTEntries(source: string, e: TranscriptEntry)
    requires e in ParseWebVTTSpec(source)
    ensures e.text != [] && IsTrimmed(e.text) && e.ts.Finite?
  {
    var cues := Cues(Blocks(source));
    StableSortPermutes(cues, EntryMs);
    assert e in multiset(cues);
  }

  /** A document written with CRLF line endings parses exactly like its LF form. */
  lemma CrLfAgnostic(doc: string)
    requires NoCrLf(doc)
    ensures ParseWebVTTSpec(ToCrLf(doc)) == ParseWebVTTSpec(doc)
  {
    NormalizeUndoesCrLf(doc);
    NormalizeWithoutCrLf(doc);
  }

  /** `FormatTimecode` writes only digits, colons and a dot. */
  lemma FormatTimecodeChars(ms: nat, c: char)
    requires ms < 100 * MsPerHour && c in FormatTimecode(ms)
    ensures IsDigit(c) || c == ':' || c == '.'
  {
    var f := FormatTimecode(ms);
    var i :| 0 <= i < |f| && f[i] == c;
  }

  /** A block in the usual shape: optional identifier lines, `HH:MM:SS.mmm --> <end>`, then text lines. */
  function CueBlock(header: seq<string>, ms: nat, end: string, textLines: seq<string>): string
    requires ms < 100 * MsPerHour
  {
    Join(header + [TimeLine(ms, end)] + textLines, "\n")
  }

  predicate PlainLines(lines: seq<string>) {
    forall i :: 0 <= i < |lines| ==> lines[i] != [] && '\n' !in lines[i]
  }

  function TimeLine(ms: nat, end: string): string
    requires ms < 100 * MsPerHour
  {
    FormatTimecode(ms) + " " + Arrow + end
  }

  /** The time line written for `ms` holds an arrow and reads back as the start time `ms`. */
  lemma TimeLineReads(ms: nat, end: string)
    requires ms < 100 * MsPerHour
    ensures Contains(TimeLine(ms, end), Arrow)
    ensures StartRaw(TimeLine(ms, end)) == FormatTimecode(ms)
    ensures ParseTimecode(StartRaw(TimeLine(ms, end))) == Some(ms)
  {
    var f := FormatTimecode(ms);
    var timeLine := TimeLine(ms, end);
    assert OccursAt(timeLine, Arrow, 13) by {
      assert timeLine[13..16] == Arrow;
    }
    forall j: nat | j < 13 ensures !OccursAt(timeLine, Arrow, j) {
      if j < 12 {
        assert timeLine[j] == f[j];
        if f[j] == '-' {
          FormatTimecodeChars(ms, '-');
        }
      }
      assert timeLine[j..j + 3][0] == timeLine[j];
    }
    assert FindFirst(timeLine, Arrow) == Some(13);
    assert Split(timeLine, Arrow)[0] == f + " " by {
      assert timeLine[..13] == f + " ";
    }
    assert IsTrimmed(f);
    TrimTrailingSpaces(f, " ");
    TimecodeRoundTrip(ms, []);
    assert f + [] == f;
  }

  /** The lines of a well-formed block are exactly the lines it was written from. */
  lemma CueBlockLines(header: seq<string>, ms: nat, end: string, textLines: seq<string>)
    requires ms < 100 * MsPerHour
    requires PlainLines(header) && '\n' !in end && PlainLines(textLines)
    ensures Lines(CueBlock(header, ms, end, textLines)) == header + [TimeLine(ms, end)] + textLines
  {
    var f := FormatTimecode(ms);
    var all := header + [TimeLine(ms, end)] + textLines;
    assert '\n' !in f by {
      if '\n' in f {
        FormatTimecodeChars(ms, '\n');
      }
    }
    assert PlainLines(all);
    forall i | 0 <= i < |all| ensures !Contains(all[i], "\n") {
      ContainsChar(all[i], '\n');
    }
    SplitJoin(all, '\n');
    RemoveEmptyKeeps(all);
  }

  /**
   * A well-formed block reads back as one entry: its time is the start time and its text is the
   * text lines joined with spaces.
   */
  lemma CueBlockRoundTrip(header: seq<string>, ms: nat, end: string, textLines: seq<string>)
    requires ms < 100 * MsPerHour
    requires PlainLines(header) && forall i :: 0 <= i < |header| ==> !Contains(header[i], Arrow)
    requires '\n' !in end
    requires textLines != [] && PlainLines(textLines) && IsTrimmed(Join(textLines, " "))
    ensures ParseCue(CueBlock(header, ms, end, textLines)) == Some(TranscriptEntry(Join(textLines, " "), Finite(ms)))
  {
    var all := header + [TimeLine(ms, end)] + textLines;
    var k := |header|;
    CueBlockLines(header, ms, end, textLines);
    TimeLineReads(ms, end);
    TimeLineIndexAt(all, k);
    assert all[k + 1..] == textLines;
    JoinNonEmpty(textLines, " ");
    TrimOfTrimmed(Join(textLines, " "));
    ParseCueOf(CueBlock(header, ms, end, textLines), all, k, ms);
  }

  /** How `ParseCue` reads a block once its lines, its time line and its start time are known. */
  lemma ParseCueOf(chunk: string, lines: seq<string>, k: nat, ms: nat)
    requires Lines(chunk) == lines && |lines| >= 2 && TimeLineIndex(lines) == Some(k)
    requires ParseTimecode(StartRaw(lines[k])) == Some(ms)
    requires Trim(Join(lines[k + 1..], " ")) != []
    ensures ParseCue(chunk) == Some(TranscriptEntry(Trim(Join(lines[k + 1..], " ")), Finite(ms)))
  {
  }

  lemma TimeLineIndexAt(lines: seq<string>, k: nat)
    requires k < |lines| && Contains(lines[k], Arrow)
    requires forall j :: 0 <= j < k ==> !Contains(lines[j], Arrow)
    ensures TimeLineIndex(lines) == Some(k)
  {
  }

  /** A character of a block other than a line feed comes from the document. */
  lemma BlockChars(source: string, i: nat, c: char)
    requires i < |Blocks(source)| && c != '\n'
    ensures c in Blocks(source)[i] ==> c in source
  {
    if c in Blocks(source)[i] {
      var parts := Split(NormalizeNewlines(source), "\n\n");
      var trimmed := TrimAll(parts);
      assert Blocks(source)[i] in trimmed;
      var j :| 0 <= j < |trimmed| && trimmed[j] == Blocks(source)[i];
      TrimChars(parts[j], c);
      SplitChars(NormalizeNewlines(source), "\n\n", j, c);
      NormalizeChars(source, c);
    }
  }

  /** Every arrow starts with a hyphen. */
  lemma ArrowHasHyphen(line: string)
    ensures Contains(line, Arrow) ==> '-' in line
  {
    if Contains(line, Arrow) {
      var p := FindFirst(line, Arrow).value;
      assert line[p..p + 3][0] == line[p];
    }
  }

  /** Every character of a line of a block comes from the block. */
  lemma LinesChars(chunk: string, j: nat, c: char)
    requires j < |Lines(chunk)|
    ensures c in Lines(chunk)[j] ==> c in chunk
  {
    if c in Lines(chunk)[j] {
      var parts := Split(chunk, "\n");
      assert Lines(chunk)[j] in parts;
      var k :| 0 <= k < |parts| && parts[k] == Lines(chunk)[j];
      SplitChars(chunk, "\n", k, c);
    }
  }

  /** A block without a hyphen has no time line, so it is skipped. */
  lemma BlockWithoutHyphen(chunk: string)
    requires '-' !in chunk
    ensures ParseCue(chunk) == None
  {
    var lines := Lines(chunk);
    forall j | 0 <= j < |lines| ensures !Contains(lines[j], Arrow) {
      LinesChars(chunk, j, '-');
      ArrowHasHyphen(lines[j]);
    }
  }

  lemma {:induction false} CuesAllSkipped(blocks: seq<string>)
    requires forall i :: 0 <= i < |blocks| ==> ParseCue(blocks[i]).None?
    ensures Cues(blocks) == []
  {
    if blocks != [] {
      CuesAllSkipped(blocks[..|blocks| - 1]);
    }
  }

  /** A document with no hyphen at all, hence no `-->`, yields no entries. */
  lemma NoArrowNoEntries(source: string)
    requires '-' !in source
    ensures ParseWebVTTSpec(source) == []
  {
    var blocks := Blocks(source);
    forall i | 0 <= i < |blocks| ensures ParseCue(blocks[i]).None? {
      BlockChars(source, i, '-');
      BlockWithoutHyphen(blocks[i]);
    }
    CuesAllSkipped(blocks);
  }
}
