/**
 * The controller page's bookkeeping: the Whisper log (a list of recognised lines sorted by
 * the player position at which their audio chunk began), its editing, the highlight list it
 * shows, the microphone error messages, and the capture session that cuts the recording into
 * chunks and queues one transcription job per chunk. Player positions are whole milliseconds.
 */
module Controller {
  import opened Wrappers
  import opened Text
  import opened Sorting
  import opened Episode

  /** The recorder's slice length, `SLICE_MS`. */
  const SliceMs := 8000

  /** A line of the log: its text and the position (ms) where its chunk began. */
  datatype Line = Line(text: string, ts: int)

  function LineTs(l: Line): int {
    l.ts
  }

  // The log after a chunk is recognised

  /** `(stt.text || "").trim()`: a missing or empty reply gives the empty text. */
  function RecognisedText(sttText: Option<string>): (r: string)
    ensures r == [] <==> sttText.None? || AllSpaces(sttText.value)
  {
    if sttText.Some? then TrimEmptyIff(sttText.value); Trim(sttText.value) else ""
  }

  /** The line a transcription adds: none when the recognised text is empty. */
  function ChunkLine(sttText: Option<string>, ts: int): (r: seq<Line>)
    ensures r == [] <==> sttText.None? || AllSpaces(sttText.value)
    ensures r != [] ==> r == [Line(Trim(sttText.value), ts)]
  {
    var text := RecognisedText(sttText);
    if text == [] then [] else [Line(text, ts)]
  }

  /** `[...prev, ...lines]` sorted by time, or `prev` itself when there is nothing to add. */
  function AddLines(s: seq<Line>, lines: seq<Line>): seq<Line> {
    if lines == [] then s else StableSort(s + lines, LineTs)
  }

  /** The `setTranscripts` updater of `transcribeChunk`: append the line, then sort by time. */
  function ApplyChunk(t: seq<Line>, sttText: Option<string>, ts: int): seq<Line> {
    AddLines(t, ChunkLine(sttText, ts))
  }

  /** On a sorted log the new line goes in after every line at or before its time and before every later one. */
  lemma AddLinePlace(t: seq<Line>, x: Line)
    requires SortedBy(t, LineTs)
    ensures exists p :: 0 <= p <= |t| && AddLines(t, [x]) == t[..p] + [x] + t[p..]
                        && (forall i :: 0 <= i < p ==> t[i].ts <= x.ts)
                        && (forall i :: p <= i < |t| ==> t[i].ts > x.ts)
  {
    AppendThenSort(t, x, LineTs);
    var p := InsertPos(t, x, LineTs);
    assert AddLines(t, [x]) == t[..p] + [x] + t[p..];
    forall i | 0 <= i < p ensures t[i].ts <= x.ts {
      assert LineTs(t[i]) <= LineTs(t[p - 1]);
    }
  }

  /** Adding a line keeps the log sorted, and the log gains exactly that line. */
  lemma AddLineEffect(t: seq<Line>, x: Line)
    requires SortedBy(t, LineTs)
    ensures var r := AddLines(t, [x]);
            SortedBy(r, LineTs) && |r| == |t| + 1 && multiset(r) == multiset(t) + multiset{x}
  {
    AppendThenSort(t, x, LineTs);
    InsertKeepsSorted(t, x, LineTs);
    InsertPermutes(t, x, LineTs);
  }

  /** An empty recognition leaves the log as it is; otherwise the trimmed text is added at its time. */
  lemma ApplyChunkEffect(t: seq<Line>, sttText: Option<string>, ts: int)
    ensures sttText.None? || AllSpaces(sttText.value) ==> ApplyChunk(t, sttText, ts) == t
    ensures !(sttText.None? || AllSpaces(sttText.value)) ==>
              Trim(sttText.value) != [] && ApplyChunk(t, sttText, ts) == AddLines(t, [Line(Trim(sttText.value), ts)])
  {
    if sttText.Some? {
      TrimEmptyIff(sttText.value);
    }
  }

  // Editing the log

  /** `updateTranscript`: the `map` that replaces the text at `index`. */
  function UpdateTranscript(t: seq<Line>, index: int, value: string): (r: seq<Line>)
    ensures |r| == |t|
    ensures forall i :: 0 <= i < |t| ==> r[i].ts == t[i].ts
    ensures forall i :: 0 <= i < |t| && i != index ==> r[i] == t[i]
    ensures 0 <= index < |t| ==> r[index].text == value
  {
    seq(|t|, i requires 0 <= i < |t| => if i == index then Line(value, t[i].ts) else t[i])
  }

  /** Editing keeps the order, and an index outside the log changes nothing. */
  lemma UpdateTranscriptKeeps(t: seq<Line>, index: int, value: string)
    ensures SortedBy(t, LineTs) ==> SortedBy(UpdateTranscript(t, index, value), LineTs)
    ensures !(0 <= index < |t|) ==> UpdateTranscript(t, index, value) == t
  {
  }

  /** `removeTranscript`'s `filter((_, i) => i !== index)`. */
  function RemoveTranscript(t: seq<Line>, index: int): (r: seq<Line>)
    ensures |r| <= |t|
  {
    if t == [] then []
    else RemoveTranscript(t[..|t| - 1], index) + (if |t| - 1 == index then [] else [t[|t| - 1]])
  }

  /** Removal deletes exactly the entry at `index`, keeping the others in order; outside the log it changes nothing. */
  lemma {:induction false} RemoveTranscriptShape(t: seq<Line>, index: int)
    ensures 0 <= index < |t| ==> RemoveTranscript(t, index) == t[..index] + t[index + 1..]
    ensures !(0 <= index < |t|) ==> RemoveTranscript(t, index) == t
  {
    if t != [] {
      var front := t[..|t| - 1];
      RemoveTranscriptShape(front, index);
      if 0 <= index < |t| - 1 {
        assert front[..index] == t[..index];
        assert front[index + 1..] + [t[|t| - 1]] == t[index + 1..];
      } else if index == |t| - 1 {
        assert t[index + 1..] == [];
      } else {
        assert front + [t[|t| - 1]] == t;
      }
    }
  }

  /** Removal keeps the log sorted. */
  lemma RemoveTranscriptSorted(t: seq<Line>, index: int)
    requires SortedBy(t, LineTs)
    ensures SortedBy(RemoveTranscript(t, index), LineTs)
  {
    RemoveTranscriptShape(t, index);
    if 0 <= index < |t| {
      var r := RemoveTranscript(t, index);
      forall a, b | 0 <= a < b < |r| ensures LineTs(r[a]) <= LineTs(r[b]) {
        var a' := if a < index then a else a + 1;
        var b' := if b < index then b else b + 1;
        assert r[a] == t[a'] && r[b] == t[b'];
      }
    }
  }

  /** Which row is being edited (`editingIndex`) and the text in its editor (`editDraft`). */
  datatype EditState = EditState(editingIndex: Option<int>, draft: string)

  const NotEditing := EditState(None, "")

  /** The entry the open editor belongs to, when its index is inside the log. */
  function EditedEntry(t: seq<Line>, es: EditState): (e: Option<Line>)
    ensures e.Some? ==> e.value in t
  {
    if es.editingIndex.Some? && 0 <= es.editingIndex.value < |t| then Some(t[es.editingIndex.value]) else None
  }

  /** The Edit button of row `idx`: open the editor on that row with its text. */
  function StartEdit(t: seq<Line>, idx: int): (es: EditState)
    requires 0 <= idx < |t|
    ensures EditedEntry(t, es) == Some(t[idx]) && es.draft == t[idx].text
  {
    EditState(Some(idx), t[idx].text)
  }

  /** The Save button, shown on the edited row and enabled when the trimmed draft is not empty. */
  function SaveEdit(t: seq<Line>, es: EditState): (seq<Line>, EditState)
    requires es.editingIndex.Some? && 0 <= es.editingIndex.value < |t| && Trim(es.draft) != []
  {
    (UpdateTranscript(t, es.editingIndex.value, Trim(es.draft)), NotEditing)
  }

  /** Saving writes the trimmed draft into the edited entry only, and closes the editor. */
  lemma SaveEditEffect(t: seq<Line>, es: EditState)
    requires es.editingIndex.Some? && 0 <= es.editingIndex.value < |t| && Trim(es.draft) != []
    ensures var (r, after) := SaveEdit(t, es);
            var k := es.editingIndex.value;
            |r| == |t| && r[k] == Line(Trim(es.draft), t[k].ts)
            && (forall i :: 0 <= i < |t| && i != k ==> r[i] == t[i])
            && EditedEntry(r, after).None? && after.draft == []
  {
  }

  /** The Clear button: the log is emptied and the editor closed. */
  function ClearLog(t: seq<Line>, es: EditState): (r: (seq<Line>, EditState))
    ensures r.0 == [] && EditedEntry(r.0, r.1).None? && r.1.draft == []
  {
    ([], NotEditing)
  }

  /**
   * `removeTranscript` as written: the editor is closed when its own row is removed, but its
   * index is left as it is when an earlier row goes, so it then points at the next entry.
   */
  function RemoveAsWritten(t: seq<Line>, es: EditState, index: int): (seq<Line>, EditState) {
    (RemoveTranscript(t, index), if es.editingIndex == Some(index) then NotEditing else es)
  }

  /** Removal that moves the editor's index down when an earlier row goes. */
  function RemoveShifting(t: seq<Line>, es: EditState, index: int): (seq<Line>, EditState) {
    var k := es.editingIndex;
    (RemoveTranscript(t, index),
     if k == Some(index) then NotEditing
     else if k.Some? && 0 <= index < k.value then EditState(Some(k.value - 1), es.draft)
     else es)
  }

  /** With the shift, removing another row leaves the editor on the same entry with the same draft. */
  lemma RemoveShiftingKeepsEditor(t: seq<Line>, es: EditState, index: int)
    requires 0 <= index < |t|
    ensures var (r, after) := RemoveShifting(t, es, index);
            (es.editingIndex == Some(index) ==> after == NotEditing)
            && (es.editingIndex != Some(index) ==> EditedEntry(r, after) == EditedEntry(t, es) && after.draft == es.draft)
  {
    RemoveTranscriptShape(t, index);
  }

  /** With the shift, removing a row and then saving is the same as saving and then removing. */
  lemma RemoveShiftingThenSave(t: seq<Line>, es: EditState, index: int)
    requires es.editingIndex.Some? && 0 <= es.editingIndex.value < |t| && Trim(es.draft) != []
    requires 0 <= index < |t| && index != es.editingIndex.value
    ensures var (r, after) := RemoveShifting(t, es, index);
            after.editingIndex.Some? && 0 <= after.editingIndex.value < |r|
            && SaveEdit(r, after).0 == RemoveTranscript(SaveEdit(t, es).0, index)
  {
    var k := es.editingIndex.value;
    var (r, after) := RemoveShifting(t, es, index);
    RemoveTranscriptShape(t, index);
    var u := SaveEdit(t, es).0;
    RemoveTranscriptShape(u, index);
    var lhs, rhs := SaveEdit(r, after).0, RemoveTranscript(u, index);
    assert |lhs| == |rhs|;
    forall j | 0 <= j < |lhs| ensures lhs[j] == rhs[j] {
      if j < index {
        assert rhs[j] == u[j];
      } else {
        assert rhs[j] == u[j + 1];
      }
    }
  }

  /** The draft of the example below needs no trimming. */
  lemma DraftIsTrimmed()
    ensures Trim("b!") == "b!"
  {
    assert IsTrimmed("b!") by {
      assert "b!"[0] == 'b' && "b!"[1] == '!';
    }
    TrimOfTrimmed("b!");
  }

  /** Deleting the first of three rows leaves the other two. */
  lemma RemoveFirstOfThree(x: Line, y: Line, z: Line)
    ensures RemoveTranscript([x, y, z], 0) == [y, z]
  {
    RemoveTranscriptShape([x, y, z], 0);
    assert [x, y, z][1..] == [y, z];
  }

  /** Saving a trimmed draft on the second row replaces that row's text. */
  lemma SaveSecondRow(x: Line, y: Line, d: string)
    requires Trim(d) == d && d != []
    ensures SaveEdit([x, y], EditState(Some(1), d)).0 == [x, Line(d, y.ts)]
  {
    var r := UpdateTranscript([x, y], 1, d);
    assert r[0] == x && r[1] == Line(d, y.ts);
  }

  /** Saving the second of three rows, then deleting the first, leaves the saved row in front. */
  lemma SaveThenRemoveFirst(x: Line, y: Line, z: Line, d: string)
    requires Trim(d) == d && d != []
    ensures RemoveTranscript(SaveEdit([x, y, z], EditState(Some(1), d)).0, 0) == [Line(d, y.ts), z]
  {
    var u := UpdateTranscript([x, y, z], 1, d);
    assert u == [x, Line(d, y.ts), z] by {
      assert u[0] == x && u[1] == Line(d, y.ts) && u[2] == z;
    }
    RemoveFirstOfThree(x, Line(d, y.ts), z);
  }

  /**
   * As written, deleting a row above the one being edited moves the editor to the next entry:
   * in `a, b, c` with `b` open, deleting `a` leaves the editor on `c`, whose text Save then
   * replaces with the draft made from `b`.
   */
  lemma RemoveAsWrittenMovesEditor(t: seq<Line>, es: EditState)
    requires t == [Line("a", 0), Line("b", 1000), Line("c", 2000)] && es == EditState(Some(1), "b!")
    ensures EditedEntry(t, es) == Some(Line("b", 1000))
    ensures EditedEntry(RemoveAsWritten(t, es, 0).0, RemoveAsWritten(t, es, 0).1) == Some(Line("c", 2000))
    ensures var (r, after) := RemoveAsWritten(t, es, 0);
            SaveEdit(r, after).0 == [Line("b", 1000), Line("b!", 2000)]
            && SaveEdit(r, after).0 != RemoveTranscript(SaveEdit(t, es).0, 0)
  {
    var a, b, c := Line("a", 0), Line("b", 1000), Line("c", 2000);
    RemoveFirstOfThree(a, b, c);
    assert RemoveAsWritten(t, es, 0) == ([b, c], es);
    DraftIsTrimmed();
    SaveSecondRow(b, c, "b!");
    SaveThenRemoveFirst(a, b, c, "b!");
    assert Line("b", 1000) != Line("b!", 1000) by {
      assert |"b"| != |"b!"|;
    }
  }

  // The highlight list

  /** The parts of the stored response the list reads: `analysis.highlightPairs` and the top-level copy. */
  datatype Envelope = Envelope(analysisPairs: Option<seq<HighlightPair>>, highlightPairs: Option<seq<HighlightPair>>)

  const MaxDisplayed := 10

  /** The `highlightPairs` memo: the nested list if present (an empty array counts), else the top-level one, at most ten. */
  function DisplayedPairs(analysis: Option<Envelope>): (r: seq<HighlightPair>)
    ensures |r| <= MaxDisplayed
  {
    if analysis.None? then []
    else
      var src := if analysis.value.analysisPairs.Some? then analysis.value.analysisPairs else analysis.value.highlightPairs;
      if src.None? then [] else if |src.value| <= MaxDisplayed then src.value else src.value[..MaxDisplayed]
  }

  /** The nested list wins whenever it is there; then the top-level one; the list shows their first ten. */
  lemma DisplayedPairsSource(env: Envelope)
    ensures var r := DisplayedPairs(Some(env));
            var src := if env.analysisPairs.Some? then env.analysisPairs.value
                       else if env.highlightPairs.Some? then env.highlightPairs.value else [];
            (|r| == if |src| < MaxDisplayed then |src| else MaxDisplayed) && r == src[..|r|]
  {
  }

  /** An empty nested list hides a non-empty top-level one. */
  lemma EmptyNestedHidesTop(top: seq<HighlightPair>)
    ensures DisplayedPairs(Some(Envelope(Some([]), Some(top)))) == []
  {
  }

  // Microphone errors

  /** What `getUserMedia` or the recorder threw. */
  datatype MicError = DomError(name: string, message: string) | ErrorValue(message: string) | OtherValue

  const MicDefault := "Could not access the microphone."
  const MicDenied := "Microphone permission was denied. Allow access to start Whisper capture."
  const MicMissing := "No microphone was found. Check your input device settings."
  const MicUnsupported := "This browser does not support the selected audio recording format. Try updating Safari or using Chrome."

  /** The message shown when capture cannot start. */
  function MicErrorMessage(e: MicError): (m: string)
    ensures m != []
  {
    match e
    case DomError(name, message) =>
      if name == "NotAllowedError" then MicDenied
      else if name == "NotFoundError" then MicMissing
      else if name == "NotSupportedError" || Contains(message, "Invalid constraint") then MicUnsupported
      else if message != [] then message
      else MicDefault
    case ErrorValue(message) => if message != [] then message else MicDefault
    case OtherValue => MicDefault
  }

  /** The three recognised exception names give their fixed text, whatever the exception's message. */
  lemma MicKnownNames(name: string, m1: string, m2: string)
    requires name in {"NotAllowedError", "NotFoundError", "NotSupportedError"}
    ensures MicErrorMessage(DomError(name, m1)) == MicErrorMessage(DomError(name, m2))
    ensures MicErrorMessage(DomError(name, m1)) in {MicDenied, MicMissing, MicUnsupported}
  {
  }

  /** Any other failure shows its own message when it has one, and the default text otherwise. */
  lemma MicOtherErrors(e: MicError)
    requires e.DomError? ==> e.name !in {"NotAllowedError", "NotFoundError", "NotSupportedError"}
                             && !Contains(e.message, "Invalid constraint")
    ensures MicErrorMessage(e) == (if e.OtherValue? || e.message == [] then MicDefault else e.message)
  {
  }

  // The capture session

  /** A queued transcription: the chunk's start position and its number. */
  datatype Job = Job(start: int, index: nat)

  /** How a transcription ends: the reply's `text` field, or a failure (network, bad JSON). */
  datatype JobOutcome = Recognised(text: Option<string>) | Failed

  /** One job's effect on the log: a failure is swallowed. */
  function ApplyJob(t: seq<Line>, j: Job, o: JobOutcome): seq<Line> {
    match o
    case Failed => t
    case Recognised(text) => ApplyChunk(t, text, j.start)
  }

  /** The line a job adds: none for a failure or an empty recognition. */
  function JobLine(j: Job, o: JobOutcome): (r: seq<Line>)
    ensures |r| <= 1
  {
    match o
    case Failed => []
    case Recognised(text) => ChunkLine(text, j.start)
  }

  /** A job adds its line to the log. */
  lemma ApplyJobAddsLine(t: seq<Line>, j: Job, o: JobOutcome)
    ensures ApplyJob(t, j, o) == AddLines(t, JobLine(j, o))
  {
  }

  /** The lines each job of a queue adds. */
  function JobLines(jobs: seq<Job>, outcomes: seq<JobOutcome>): (r: seq<seq<Line>>)
    requires |jobs| == |outcomes|
    ensures |r| == |jobs| && forall i :: 0 <= i < |jobs| ==> r[i] == JobLine(jobs[i], outcomes[i])
  {
    seq(|jobs|, i requires 0 <= i < |jobs| => JobLine(jobs[i], outcomes[i]))
  }

  /** The log after each job's lines have been added in turn. */
  function RunQueue(t: seq<Line>, adds: seq<seq<Line>>): seq<Line> {
    if adds == [] then t else AddLines(RunQueue(t, adds[..|adds| - 1]), adds[|adds| - 1])
  }

  function Flatten(adds: seq<seq<Line>>): seq<Line> {
    if adds == [] then [] else Flatten(adds[..|adds| - 1]) + adds[|adds| - 1]
  }

  /** The jobs of the queue, run one after another in the order they were queued. */
  function ApplyJobs(t: seq<Line>, jobs: seq<Job>, outcomes: seq<JobOutcome>): seq<Line>
    requires |jobs| == |outcomes|
  {
    RunQueue(t, JobLines(jobs, outcomes))
  }

  /** The lines the jobs add, in queue order. */
  function NewLines(jobs: seq<Job>, outcomes: seq<JobOutcome>): seq<Line>
    requires |jobs| == |outcomes|
  {
    Flatten(JobLines(jobs, outcomes))
  }

  lemma AddToSorted(base: seq<Line>, more: seq<Line>, last: seq<Line>)
    ensures AddLines(StableSort(base + more, LineTs), last) == StableSort(base + (more + last), LineTs)
  {
    if last == [] {
      assert more + last == more;
    } else {
      SortPrefixAbsorbed(base + more, last, LineTs);
      assert base + more + last == base + (more + last);
    }
  }

  lemma {:induction false} RunQueueSorts(t: seq<Line>, adds: seq<seq<Line>>)
    requires SortedBy(t, LineTs)
    ensures RunQueue(t, adds) == StableSort(t + Flatten(adds), LineTs)
  {
    if adds == [] {
      StableSortOfSorted(t, LineTs);
      assert t + [] == t;
    } else {
      var front := adds[..|adds| - 1];
      RunQueueSorts(t, front);
      AddToSorted(t, Flatten(front), adds[|adds| - 1]);
    }
  }

  /**
   * Running the queue on a sorted log gives the stable sort of the log followed by the
   * recognised lines in queue order: nothing is lost, and lines at the same position keep the
   * order their chunks were recorded in.
   */
  lemma ApplyJobsSorts(t: seq<Line>, jobs: seq<Job>, outcomes: seq<JobOutcome>)
    requires |jobs| == |outcomes| && SortedBy(t, LineTs)
    ensures ApplyJobs(t, jobs, outcomes) == StableSort(t + NewLines(jobs, outcomes), LineTs)
  {
    RunQueueSorts(t, JobLines(jobs, outcomes));
  }

  /** The log after the queue is sorted and holds exactly the old lines and the new ones. */
  lemma ApplyJobsContents(t: seq<Line>, jobs: seq<Job>, outcomes: seq<JobOutcome>)
    requires |jobs| == |outcomes| && SortedBy(t, LineTs)
    ensures SortedBy(ApplyJobs(t, jobs, outcomes), LineTs)
    ensures multiset(ApplyJobs(t, jobs, outcomes)) == multiset(t) + multiset(NewLines(jobs, outcomes))
  {
    ApplyJobsSorts(t, jobs, outcomes);
    StableSortSorted(t + NewLines(jobs, outcomes), LineTs);
    StableSortPermutes(t + NewLines(jobs, outcomes), LineTs);
  }

  lemma {:induction false} FlattenAppend(a: seq<seq<Line>>, b: seq<seq<Line>>)
    ensures Flatten(a + b) == Flatten(a) + Flatten(b)
    decreases |b|
  {
    if b == [] {
      assert a + b == a;
    } else {
      var b' := b[..|b| - 1];
      assert (a + b)[..|a + b| - 1] == a + b' && (a + b)[|a + b| - 1] == b[|b| - 1];
      FlattenAppend(a, b');
      assert Flatten(a + b) == Flatten(a + b') + b[|b| - 1];
      assert Flatten(b) == Flatten(b') + b[|b| - 1];
    }
  }

  /** An empty addition in the middle of the queue changes nothing. */
  lemma {:induction false} RunQueueSkipsEmpty(t: seq<Line>, x: seq<seq<Line>>, y: seq<seq<Line>>)
    ensures RunQueue(t, x + [[]] + y) == RunQueue(t, x + y)
    decreases |y|
  {
    if y == [] {
      assert x + [[]] + y == x + [[]] && (x + [[]])[..|x|] == x;
      assert x + y == x;
    } else {
      var y' := y[..|y| - 1];
      RunQueueSkipsEmpty(t, x, y');
      assert (x + [[]] + y)[..|x + [[]] + y| - 1] == x + [[]] + y';
      assert (x + y)[..|x + y| - 1] == x + y';
    }
  }

  lemma JobLinesAppend(a: seq<Job>, oa: seq<JobOutcome>, b: seq<Job>, ob: seq<JobOutcome>)
    requires |a| == |oa| && |b| == |ob|
    ensures JobLines(a + b, oa + ob) == JobLines(a, oa) + JobLines(b, ob)
  {
    var l, r := JobLines(a + b, oa + ob), JobLines(a, oa) + JobLines(b, ob);
    forall i | 0 <= i < |l| ensures l[i] == r[i] {
      if i < |a| {
        assert (a + b)[i] == a[i] && (oa + ob)[i] == oa[i];
      } else {
        assert (a + b)[i] == b[i - |a|] && (oa + ob)[i] == ob[i - |a|];
      }
    }
  }

  /** A job that fails is skipped: the jobs after it still run, as if it had never been queued. */
  lemma FailedJobSkipped(t: seq<Line>, a: seq<Job>, oa: seq<JobOutcome>, j: Job, b: seq<Job>, ob: seq<JobOutcome>)
    requires |a| == |oa| && |b| == |ob|
    ensures ApplyJobs(t, a + [j] + b, oa + [Failed] + ob) == ApplyJobs(t, a + b, oa + ob)
  {
    var la, lb := JobLines(a, oa), JobLines(b, ob);
    JobLinesAppend(a, oa, [j], [Failed]);
    JobLinesAppend(a + [j], oa + [Failed], b, ob);
    JobLinesAppend(a, oa, b, ob);
    assert JobLines([j], [Failed]) == [[]];
    RunQueueSkipsEmpty(t, la, lb);
  }

  lemma ApplyJobsStep(t: seq<Line>, jobs: seq<Job>, outcomes: seq<JobOutcome>, i: nat)
    requires |jobs| == |outcomes| && i < |jobs|
    ensures ApplyJobs(t, jobs[..i + 1], outcomes[..i + 1]) == ApplyJob(ApplyJobs(t, jobs[..i], outcomes[..i]), jobs[i], outcomes[i])
  {
    var adds := JobLines(jobs[..i + 1], outcomes[..i + 1]);
    assert adds[..i] == JobLines(jobs[..i], outcomes[..i]);
    assert JobLine(jobs[i], outcomes[i]) == adds[i];
    ApplyJobAddsLine(ApplyJobs(t, jobs[..i], outcomes[..i]), jobs[i], outcomes[i]);
  }

  lemma ApplyJobKeepsSorted(t: seq<Line>, j: Job, o: JobOutcome)
    requires SortedBy(t, LineTs)
    ensures SortedBy(ApplyJob(t, j, o), LineTs)
  {
    var r := JobLine(j, o);
    ApplyJobAddsLine(t, j, o);
    if r != [] {
      assert r == [r[0]];
      AddLineEffect(t, r[0]);
    }
  }

  /** Queued jobs are numbered in increasing order, all below the next number to hand out. */
  ghost predicate JobsOrdered(queue: seq<Job>, next: nat) {
    (forall i :: 0 <= i < |queue| ==> queue[i].index < next)
    && (forall i, j :: 0 <= i < j < |queue| ==> queue[i].index < queue[j].index)
  }

  /** The texts `startSession` shows for a blank input and for an input without a video id. */
  const MissingInput := "Please paste a YouTube URL or video ID."
  const InvalidInput := "Please provide a valid YouTube URL or video ID."

  /**
   * The recorder's state: whether chunks are being collected (`collectingRef`), where the
   * current chunk began (`chunkStartRef`), the next chunk number (`chunkIndexRef`), the jobs
   * waiting in `transcriptionQueue`, the log, and the last error message shown.
   */
  class CaptureSession {
    var collecting: bool
    var chunkStart: int
    var chunkIndex: nat
    var queue: seq<Job>
    var transcripts: seq<Line>
    var error: string

    /** The log is sorted and the queue is numbered in order. */
    ghost predicate Valid()
      reads this
    {
      SortedBy(transcripts, LineTs) && JobsOrdered(queue, chunkIndex)
    }

    constructor ()
      ensures Valid()
      ensures !collecting && chunkStart == 0 && chunkIndex == 0 && queue == [] && transcripts == [] && error == []
    {
      collecting := false;
      chunkStart := 0;
      chunkIndex := 0;
      queue := [];
      transcripts := [];
      error := [];
    }

    /** `recorder.onstart`: the chunk begins at the player's position, or 0 without a player. */
    method OnStart(player: Option<int>)
      modifies this
      requires Valid()
      ensures Valid()
      ensures chunkStart == (if player.Some? then player.value else 0)
      ensures collecting == old(collecting) && chunkIndex == old(chunkIndex) && queue == old(queue)
      ensures transcripts == old(transcripts) && error == old(error)
    {
      chunkStart := if player.Some? then player.value else 0;
    }

    /**
     * `recorder.ondataavailable`: an event is ignored unless chunks are being collected and its
     * data is not empty. Otherwise a job for the chunk that began at the previous boundary is
     * queued under the next number, and the boundary moves to the player's position, or one
     * slice further without a player.
     */
    method OnDataAvailable(dataSize: nat, player: Option<int>)
      modifies this
      requires Valid()
      ensures Valid()
      ensures !old(collecting) || dataSize == 0 ==>
                chunkStart == old(chunkStart) && chunkIndex == old(chunkIndex) && queue == old(queue)
      ensures old(collecting) && dataSize > 0 ==>
                queue == old(queue) + [Job(old(chunkStart), old(chunkIndex))]
                && chunkIndex == old(chunkIndex) + 1
                && chunkStart == (if player.Some? then player.value else old(chunkStart) + SliceMs)
      ensures collecting == old(collecting) && transcripts == old(transcripts) && error == old(error)
    {
      if !collecting || dataSize == 0 {
        return;
      }
      var start := chunkStart;
      chunkStart := if player.Some? then player.value else start + SliceMs;
      var index := chunkIndex;
      chunkIndex := chunkIndex + 1;
      queue := queue + [Job(start, index)];
    }

    /** Awaiting the queue: every job runs in order with its outcome, and the queue is empty after. */
    method RunJobs(outcomes: seq<JobOutcome>)
      modifies this
      requires Valid() && |outcomes| == |queue|
      ensures Valid()
      ensures transcripts == ApplyJobs(old(transcripts), old(queue), outcomes) && queue == []
      ensures collecting == old(collecting) && chunkStart == old(chunkStart) && chunkIndex == old(chunkIndex)
      ensures error == old(error)
    {
      var jobs := queue;
      ghost var t0 := transcripts;
      var i := 0;
      while i < |jobs|
        invariant 0 <= i <= |jobs| && queue == jobs
        invariant collecting == old(collecting) && chunkStart == old(chunkStart) && chunkIndex == old(chunkIndex)
        invariant error == old(error)
        invariant transcripts == ApplyJobs(t0, jobs[..i], outcomes[..i])
        invariant SortedBy(transcripts, LineTs)
      {
        ApplyJobsStep(t0, jobs, outcomes, i);
        ApplyJobKeepsSorted(transcripts, jobs[i], outcomes[i]);
        transcripts := ApplyJob(transcripts, jobs[i], outcomes[i]);
        i := i + 1;
      }
      assert jobs[..i] == jobs && outcomes[..i] == outcomes;
      queue := [];
    }

    /** `stopCollection`: no more chunks are accepted, then the queued jobs finish. */
    method StopCollection(outcomes: seq<JobOutcome>)
      modifies this
      requires Valid() && |outcomes| == |queue|
      ensures Valid()
      ensures !collecting && queue == []
      ensures transcripts == ApplyJobs(old(transcripts), old(queue), outcomes)
      ensures chunkStart == old(chunkStart) && chunkIndex == old(chunkIndex) && error == old(error)
    {
      collecting := false;
      RunJobs(outcomes);
    }

    /**
     * `startSession` up to its call of `beginAutoCollection`: the error is cleared, a blank input
     * or an input without a video id is refused with its message, and otherwise capture stops, the
     * log empties and the numbering restarts. `id` is what `extractVideoId` gives for the trimmed
     * input; `metaFailure` is the message shown when the metadata request fails, `None` when it
     * succeeds.
     */
    method StartSession(input: string, id: string, metaFailure: Option<string>, outcomes: seq<JobOutcome>)
      modifies this
      requires Valid() && |outcomes| == |queue|
      ensures Valid()
      ensures Trim(input) == [] ==> error == MissingInput
      ensures Trim(input) != [] && id == [] ==> error == InvalidInput
      ensures Trim(input) == [] || id == [] ==>
                collecting == old(collecting) && queue == old(queue) && transcripts == old(transcripts)
                && chunkIndex == old(chunkIndex) && chunkStart == old(chunkStart)
      ensures Trim(input) != [] && id != [] ==>
                !collecting && queue == [] && transcripts == [] && chunkIndex == 0
                && chunkStart == old(chunkStart)
                && error == (if metaFailure.Some? then metaFailure.value else [])
    {
      error := [];
      var sourceInput := Trim(input);
      if sourceInput == [] {
        error := MissingInput;
        return;
      }
      if id == [] {
        error := InvalidInput;
        return;
      }
      StopCollection(outcomes);
      transcripts := [];
      chunkIndex := 0;
      if metaFailure.Some? {
        error := metaFailure.value;
      }
    }

    /**
     * `beginAutoCollection` for a non-empty video id: stop any earlier capture, then collect if
     * the microphone and recorder start (`mic` is `None`), or show the error and stay stopped.
     */
    method BeginAutoCollection(videoId: string, outcomes: seq<JobOutcome>, mic: Option<MicError>)
      modifies this
      requires Valid() && |outcomes| == |queue|
      ensures Valid()
      ensures videoId == [] ==> collecting == old(collecting) && queue == old(queue) && transcripts == old(transcripts) && error == old(error)
      ensures videoId != [] ==> queue == [] && transcripts == ApplyJobs(old(transcripts), old(queue), outcomes)
                                && collecting == mic.None?
                                && error == (if mic.Some? then MicErrorMessage(mic.value) else old(error))
      ensures chunkStart == old(chunkStart) && chunkIndex == old(chunkIndex)
    {
      if videoId == [] {
        return;
      }
      StopCollection(outcomes);
      if mic.None? {
        collecting := true;
      } else {
        error := MicErrorMessage(mic.value);
        collecting := false;
      }
    }
  }

  /** After `stopCollection` a further chunk is ignored: nothing is queued and the numbering stays. */
  method StopThenIgnore(s: CaptureSession, outcomes: seq<JobOutcome>, player: Option<int>)
    modifies s
    requires s.Valid() && |outcomes| == |s.queue|
    ensures s.Valid() && !s.collecting && s.queue == [] && s.chunkIndex == old(s.chunkIndex)
    ensures s.transcripts == ApplyJobs(old(s.transcripts), old(s.queue), outcomes)
  {
    s.StopCollection(outcomes);
    s.OnDataAvailable(1, player);
  }

  /**
   * `startSession` for a new video whose metadata loads and whose microphone starts: whatever an
   * earlier session showed, no error remains, capture is running and the log starts empty.
   */
  method NewSessionClearsError(s: CaptureSession, input: string, id: string, outcomes: seq<JobOutcome>)
    modifies s
    requires s.Valid() && |outcomes| == |s.queue|
    requires Trim(input) != [] && id != []
    ensures s.Valid() && s.error == [] && s.collecting && s.queue == [] && s.transcripts == [] && s.chunkIndex == 0
  {
    s.StartSession(input, id, None, outcomes);
    s.BeginAutoCollection(id, [], None);
  }
}
