/**
 * The deterministic parts of the YouTube client: reading an ISO 8601 duration of the
 * `PTnHnMnS` form (ISO 8601:2004, section 4.4.3.2, time designator only) into whole seconds,
 * and the two loops that turn API items into records, durations keyed by video id and the
 * videos of a channel in API order. The HTTP requests are outside the model; an API item is an
 * abstract record of the optional fields the loops read.
 */
module YouTube {
  import opened Wrappers
  import opened Decimal
  import opened Text

  /** The length of the run of decimal digits at the start of `t`. */
  function DigitRun(t: string): (n: nat)
    ensures n <= |t|
    ensures forall k :: 0 <= k < n ==> IsDigit(t[k])
    ensures n < |t| ==> !IsDigit(t[n])
  {
    if t != [] && IsDigit(t[0]) then 1 + DigitRun(t[1..]) else 0
  }

  lemma DigitPrefix(t: string, n: nat)
    requires n <= |t| && forall k :: 0 <= k < n ==> IsDigit(t[k])
    ensures AllDigits(t[..n])
  {
    var d := t[..n];
    forall k | 0 <= k < |d| ensures IsDigit(d[k]) {
      assert d[k] == t[k];
    }
  }

  /** What an optional group `(?:(\d+)U)?` of the pattern yields: its number, 0 when it is absent, and how much text it consumed. */
  datatype Group = Group(value: nat, next: nat)

  /**
   * The group for unit letter `unit` matched greedily at the start of `t`. The digits are a
   * maximal run, so the group is present exactly when that run is non-empty and the unit letter
   * follows it.
   */
  function ReadGroup(t: string, unit: char): (g: Group)
    ensures g.next <= |t|
    ensures g.next == 0 ==> g.value == 0
    ensures g.next > 0 ==> t[g.next - 1] == unit
  {
    var n := DigitRun(t);
    if n > 0 && n < |t| && t[n] == unit then
      DigitPrefix(t, n);
      Group(DigitsValue(t[..n]), n + 1)
    else Group(0, 0)
  }

  /**
   * `iso8601ToSeconds`: the pattern `PT(?:(\d+)H)?(?:(\d+)M)?(?:(\d+)S)?` is not anchored, so it
   * matches at the leftmost `PT`; absent groups count as zero, and without a `PT` the result is 0.
   */
  function Iso8601ToSeconds(iso: string): (seconds: nat)
  {
    match FindFirst(iso, "PT")
    case None => 0
    case Some(p) => ComponentSeconds(iso[p + 2..])
  }

  /** The three optional groups read in turn from the text after the designator. */
  function ComponentSeconds(t: string): (seconds: nat)
  {
    var h := ReadGroup(t, 'H');
    var m := ReadGroup(t[h.next..], 'M');
    var s := ReadGroup(t[h.next..][m.next..], 'S');
    h.value * 3600 + m.value * 60 + s.value
  }

  /** A string without the designator `PT` is zero seconds long. */
  lemma NoDesignatorIsZero(iso: string)
    ensures (forall j: nat :: !OccursAt(iso, "PT", j)) ==> Iso8601ToSeconds(iso) == 0
  {
  }

  /** The number of a present component, zero for an absent one. */
  function ValueOr0(n: Option<nat>): nat {
    if n.Some? then n.value else 0
  }

  /** One component `nU`, written only when present. */
  function Part(n: Option<nat>, unit: char): string {
    if n.Some? then NatToString(n.value) + [unit] else ""
  }

  /** The duration `PT[nH][nM][nS]` with the given components. */
  function FormatDuration(h: Option<nat>, m: Option<nat>, s: Option<nat>): string {
    "PT" + Part(h, 'H') + Part(m, 'M') + Part(s, 'S')
  }

  lemma RunOf(t: string, d: string)
    requires AllDigits(d) && |d| <= |t| && t[..|d|] == d
    requires |d| == |t| || !IsDigit(t[|d|])
    ensures DigitRun(t) == |d|
  {
    assert forall k :: 0 <= k < |d| ==> t[k] == d[k];
  }

  /** A component `nU` at the start is read back as `n`. */
  lemma ReadPresent(n: nat, unit: char, z: string)
    requires !IsDigit(unit)
    ensures ReadGroup(NatToString(n) + [unit] + z, unit) == Group(n, |NatToString(n)| + 1)
  {
    var d := NatToString(n);
    var t := d + [unit] + z;
    assert t[..|d|] == d;
    assert t[|d|] == unit;
    RunOf(t, d);
  }

  /** A component with another unit letter at the start leaves the group for `unit` absent. */
  lemma ReadOther(n: nat, u: char, z: string, unit: char)
    requires !IsDigit(u) && u != unit
    ensures ReadGroup(NatToString(n) + [u] + z, unit) == Group(0, 0)
  {
    var d := NatToString(n);
    var t := d + [u] + z;
    assert t[..|d|] == d;
    assert t[|d|] == u;
    RunOf(t, d);
  }

  /** A present component is read back with its number; an absent one reads as zero when nothing after it does. */
  lemma ReadPart(p: Option<nat>, unit: char, rest: string)
    requires !IsDigit(unit)
    requires p.None? ==> ReadGroup(rest, unit) == Group(0, 0)
    ensures ReadGroup(Part(p, unit) + rest, unit) == Group(ValueOr0(p), |Part(p, unit)|)
  {
    if p.Some? {
      assert Part(p, unit) + rest == NatToString(p.value) + [unit] + rest;
      ReadPresent(p.value, unit, rest);
    } else {
      assert Part(p, unit) + rest == rest;
    }
  }

  /** A component with another unit letter, present or not, leaves the group for `unit` absent. */
  lemma SkipsOther(p: Option<nat>, u: char, rest: string, unit: char)
    requires !IsDigit(u) && u != unit
    requires p.None? ==> ReadGroup(rest, unit) == Group(0, 0)
    ensures ReadGroup(Part(p, u) + rest, unit) == Group(0, 0)
  {
    if p.Some? {
      assert Part(p, u) + rest == NatToString(p.value) + [u] + rest;
      ReadOther(p.value, u, rest, unit);
    } else {
      assert Part(p, u) + rest == rest;
    }
  }

  /** Text that does not begin with a digit holds no group. */
  lemma NoDigitStart(z: string, unit: char)
    requires z == [] || !IsDigit(z[0])
    ensures ReadGroup(z, unit) == Group(0, 0)
  {
  }

  lemma DropPart(x: string, y: string)
    ensures (x + y)[|x|..] == y
  {
  }

  lemma FoundAtStart(d: string, t: string)
    ensures FindFirst(d + t, d) == Some(0)
    ensures (d + t)[|d|..] == t
  {
    assert (d + t)[..|d|] == d;
    assert OccursAt(d + t, d, 0);
  }

  /** After a leading designator the components are read from the text that follows it. */
  lemma DesignatorFirst(t: string)
    ensures Iso8601ToSeconds("PT" + t) == ComponentSeconds(t)
  {
    FoundAtStart("PT", t);
  }

  lemma FormatShape(A: string, B: string, C: string, rest: string)
    ensures "PT" + A + B + C + rest == "PT" + (A + (B + (C + rest)))
  {
  }

  /** The components after the designator read back as their numbers, absent ones as zero. */
  lemma ComponentsRoundTrip(h: Option<nat>, m: Option<nat>, s: Option<nat>, rest: string)
    requires rest == [] || !IsDigit(rest[0])
    ensures ComponentSeconds(Part(h, 'H') + (Part(m, 'M') + (Part(s, 'S') + rest)))
            == 3600 * ValueOr0(h) + 60 * ValueOr0(m) + ValueOr0(s)
  {
    var A, B, C := Part(h, 'H'), Part(m, 'M'), Part(s, 'S');
    var t3 := C + rest;
    var t2 := B + t3;
    NoDigitStart(rest, 'S');
    NoDigitStart(rest, 'M');
    NoDigitStart(rest, 'H');
    ReadPart(s, 'S', rest);
    SkipsOther(s, 'S', rest, 'M');
    ReadPart(m, 'M', t3);
    SkipsOther(s, 'S', rest, 'H');
    SkipsOther(m, 'M', t3, 'H');
    ReadPart(h, 'H', t2);
    DropPart(A, t2);
    DropPart(B, t3);
  }

  /**
   * Round trip: the duration written with any choice of components, followed by text that does
   * not begin with a digit, reads back as `3600 h + 60 m + s`, an absent component counting as 0.
   */
  lemma DurationRoundTrip(h: Option<nat>, m: Option<nat>, s: Option<nat>, rest: string)
    requires rest == [] || !IsDigit(rest[0])
    ensures Iso8601ToSeconds(FormatDuration(h, m, s) + rest) == 3600 * ValueOr0(h) + 60 * ValueOr0(m) + ValueOr0(s)
  {
    FormatShape(Part(h, 'H'), Part(m, 'M'), Part(s, 'S'), rest);
    DesignatorFirst(Part(h, 'H') + (Part(m, 'M') + (Part(s, 'S') + rest)));
    ComponentsRoundTrip(h, m, s, rest);
  }

  /** The worked case `PT1H2M3S`: 3723 seconds. */
  lemma FullDurationExample()
    ensures Iso8601ToSeconds("PT1H2M3S") == 3723
  {
    assert NatToString(1) == "1" && NatToString(2) == "2" && NatToString(3) == "3";
    assert FormatDuration(Some(1), Some(2), Some(3)) + "" == "PT1H2M3S";
    DurationRoundTrip(Some(1), Some(2), Some(3), "");
  }

  /** The worked case `PT5S`: 5 seconds. */
  lemma SecondsOnlyExample()
    ensures Iso8601ToSeconds("PT5S") == 5
  {
    assert NatToString(5) == "5";
    assert FormatDuration(None, None, Some(5)) + "" == "PT5S";
    DurationRoundTrip(None, None, Some(5), "");
  }

  /** A bare designator `PT` is 0 seconds. */
  lemma BareDesignatorExample()
    ensures Iso8601ToSeconds("PT") == 0
  {
    assert FormatDuration(None, None, None) + "" == "PT";
    DurationRoundTrip(None, None, None, "");
  }

  /** The match is the leftmost one: a second duration after the first is not read. */
  lemma LeftmostDesignator()
    ensures Iso8601ToSeconds("PT5SPT9S") == 5
  {
    assert NatToString(5) == "5";
    assert FormatDuration(None, None, Some(5)) + "PT9S" == "PT5SPT9S";
    DurationRoundTrip(None, None, Some(5), "PT9S");
  }

  /** After its leading `P`, a duration `P<n>D<rest>` holds no further `P`. */
  lemma DayOnlyLeadingP(n: string, rest: string, j: nat)
    requires AllDigits(n) && 'P' !in rest && 0 < j < |n| + 2 + |rest|
    ensures ("P" + n + "D" + rest)[j] != 'P'
  {
    var iso := "P" + n + "D" + rest;
    if j <= |n| {
      assert iso[j] == n[j - 1] && IsDigit(n[j - 1]);
    } else if j > |n| + 1 {
      assert iso[j] == rest[j - |n| - 2];
    }
  }

  /**
   * A duration with a day component, `P<n>D` followed by text without another `P`, has no `PT`:
   * the whole duration, hours and minutes included, reads as 0.
   */
  lemma DayComponentIsZero(n: string, rest: string)
    requires n != [] && AllDigits(n) && 'P' !in rest
    ensures Iso8601ToSeconds("P" + n + "D" + rest) == 0
  {
    var iso := "P" + n + "D" + rest;
    assert |iso| == |n| + 2 + |rest|;
    forall j: nat
      ensures !OccursAt(iso, "PT", j)
    {
      if j + 2 <= |iso| {
        assert iso[j..j + 2][0] == iso[j] && iso[j..j + 2][1] == iso[j + 1];
        if j == 0 {
          assert iso[1] == n[0] && IsDigit(n[0]);
        } else {
          DayOnlyLeadingP(n, rest, j);
        }
      }
    }
    NoDesignatorIsZero(iso);
  }

  /** `P1DT2H3M` is read as 0 seconds. */
  lemma DayComponentExample()
    ensures Iso8601ToSeconds("P1DT2H3M") == 0
  {
    assert "P" + "1" + "D" + "T2H3M" == "P1DT2H3M";
    DayComponentIsZero("1", "T2H3M");
  }

  /** Without the letter `T` there is no designator, so the result is 0. */
  lemma NoTimeDesignator(iso: string)
    ensures 'T' !in iso ==> Iso8601ToSeconds(iso) == 0
  {
    if 'T' !in iso {
      forall j: nat | j + 2 <= |iso| ensures !OccursAt(iso, "PT", j) {
        assert iso[j + 1] in iso;
      }
    }
  }

  /** A string field as the code tests it: `undefined` and `''` are both falsy. */
  predicate Truthy(v: Option<string>) {
    v.Some? && v.value != []
  }

  /** An item of the `videos` response: `item.id` and `item.contentDetails.duration`. */
  datatype VideoItem = VideoItem(id: Option<string>, duration: Option<string>)

  predicate HasDuration(item: VideoItem) {
    Truthy(item.id) && Truthy(item.duration)
  }

  /** The seconds an item contributes. */
  function ItemSeconds(item: VideoItem): nat
    requires HasDuration(item)
  {
    Iso8601ToSeconds(item.duration.value)
  }

  /** The dictionary built item by item: items lacking either field are skipped, a later id overwrites. */
  function DurationTable(items: seq<VideoItem>): map<string, nat> {
    if items == [] then map[]
    else
      var table := DurationTable(items[..|items| - 1]);
      var item := items[|items| - 1];
      if HasDuration(item) then table[item.id.value := ItemSeconds(item)] else table
  }

  /** The `fetchVideoMetas` loop over the response items. */
  method CollectDurations(items: seq<VideoItem>) returns (result: map<string, nat>)
    ensures result == DurationTable(items)
  {
    result := map[];
    for i := 0 to |items|
      invariant result == DurationTable(items[..i])
    {
      var item := items[i];
      assert items[..i + 1][..i] == items[..i];
      if HasDuration(item) {
        result := result[item.id.value := ItemSeconds(item)];
      }
    }
    assert items[..|items|] == items;
  }

  /** The table's keys are exactly the ids of the items that have both an id and a duration. */
  lemma {:induction false} DurationTableKeys(items: seq<VideoItem>, k: string)
    ensures k in DurationTable(items) <==> exists i :: 0 <= i < |items| && HasDuration(items[i]) && items[i].id.value == k
  {
    if items != [] {
      var front := items[..|items| - 1];
      DurationTableKeys(front, k);
      if exists i :: 0 <= i < |front| && HasDuration(front[i]) && front[i].id.value == k {
        var i :| 0 <= i < |front| && HasDuration(front[i]) && front[i].id.value == k;
        assert items[i] == front[i];
      }
      if exists i :: 0 <= i < |items| && HasDuration(items[i]) && items[i].id.value == k {
        var i :| 0 <= i < |items| && HasDuration(items[i]) && items[i].id.value == k;
        if i < |front| {
          assert front[i] == items[i];
        }
      }
    }
  }

  /** The value under an id is the duration of the last item carrying that id. */
  lemma {:induction false} DurationTableLastWins(items: seq<VideoItem>, i: nat)
    requires i < |items| && HasDuration(items[i])
    requires forall j :: i < j < |items| && HasDuration(items[j]) ==> items[j].id.value != items[i].id.value
    ensures items[i].id.value in DurationTable(items)
    ensures DurationTable(items)[items[i].id.value] == ItemSeconds(items[i])
  {
    var front := items[..|items| - 1];
    if i < |front| {
      assert front[i] == items[i];
      assert forall j :: i < j < |front| ==> front[j] == items[j];
      DurationTableLastWins(front, i);
    }
  }

  /** An item of the channel `search` response, reduced to the fields the loop reads. */
  datatype SearchItem = SearchItem(videoId: Option<string>, title: Option<string>,
                                   mediumUrl: Option<string>, highUrl: Option<string>,
                                   publishedAt: Option<string>)

  datatype ChannelVideo = ChannelVideo(id: string, title: string, thumbnail: Option<string>, publishedAt: Option<string>)

  predicate Listed(item: SearchItem) {
    Truthy(item.videoId) && Truthy(item.title)
  }

  /** The record for a listed item: the thumbnail is the medium URL, or the high one when that is falsy. */
  function ToVideo(item: SearchItem): (v: ChannelVideo)
    requires Listed(item)
    ensures v.id != [] && v.title != []
    ensures Truthy(item.mediumUrl) ==> v.thumbnail == item.mediumUrl
    ensures !Truthy(item.mediumUrl) ==> v.thumbnail == item.highUrl
    ensures Truthy(item.mediumUrl) || Truthy(item.highUrl) ==> Truthy(v.thumbnail)
  {
    var thumbnail := if Truthy(item.mediumUrl) then item.mediumUrl else item.highUrl;
    ChannelVideo(item.videoId.value, item.title.value, thumbnail, item.publishedAt)
  }

  /** The listed items' records, in the order of the response. */
  function ChannelVideos(items: seq<SearchItem>): (r: seq<ChannelVideo>)
    ensures |r| <= |items|
  {
    if items == [] then []
    else
      var front := ChannelVideos(items[..|items| - 1]);
      var item := items[|items| - 1];
      if Listed(item) then front + [ToVideo(item)] else front
  }

  /** The `fetchChannelMediumVideos` loop over the response items. */
  method CollectChannelVideos(items: seq<SearchItem>) returns (results: seq<ChannelVideo>)
    ensures results == ChannelVideos(items)
  {
    results := [];
    for i := 0 to |items|
      invariant results == ChannelVideos(items[..i])
    {
      var item := items[i];
      assert items[..i + 1][..i] == items[..i];
      if Listed(item) {
        results := results + [ToVideo(item)];
      }
    }
    assert items[..|items|] == items;
  }

  /** Order is kept: the records of a concatenation are the records of each part, in turn. */
  lemma {:induction false} ChannelVideosAppend(a: seq<SearchItem>, b: seq<SearchItem>)
    ensures ChannelVideos(a + b) == ChannelVideos(a) + ChannelVideos(b)
    decreases |b|
  {
    if b == [] {
      assert a + b == a;
    } else {
      assert (a + b)[..|a + b| - 1] == a + b[..|b| - 1];
      ChannelVideosAppend(a, b[..|b| - 1]);
    }
  }

  /** A record appears exactly when some listed item produces it; unlisted items are skipped. */
  lemma {:induction false} ChannelVideosMembers(items: seq<SearchItem>, v: ChannelVideo)
    ensures v in ChannelVideos(items) <==> exists i :: 0 <= i < |items| && Listed(items[i]) && ToVideo(items[i]) == v
  {
    if items != [] {
      var front := items[..|items| - 1];
      ChannelVideosMembers(front, v);
      if exists i :: 0 <= i < |front| && Listed(front[i]) && ToVideo(front[i]) == v {
        var i :| 0 <= i < |front| && Listed(front[i]) && ToVideo(front[i]) == v;
        assert items[i] == front[i];
      }
      if exists i :: 0 <= i < |items| && Listed(items[i]) && ToVideo(items[i]) == v {
        var i :| 0 <= i < |items| && Listed(items[i]) && ToVideo(items[i]) == v;
        if i < |front| {
          assert front[i] == items[i];
        }
      }
    }
  }

  /** When every item is listed, record `i` is item `i`'s. */
  lemma {:induction false} ChannelVideosAllListed(items: seq<SearchItem>)
    requires forall i :: 0 <= i < |items| ==> Listed(items[i])
    ensures |ChannelVideos(items)| == |items|
    ensures forall i :: 0 <= i < |items| ==> ChannelVideos(items)[i] == ToVideo(items[i])
  {
    if items != [] {
      var front := items[..|items| - 1];
      assert forall i :: 0 <= i < |front| ==> front[i] == items[i];
      ChannelVideosAllListed(front);
    }
  }

  /** `fetchCaptionsWebVTT`: caption download is not implemented, so no captions are ever found. */
  function FetchCaptionsWebVTT(videoId: string): Option<string> {
    None
  }
}
