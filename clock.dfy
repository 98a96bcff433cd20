/**
 * Time labels: `MM:SS` for a position in a video, the rounded `Nm` label of a suggested video
 * and the `Nm SSs` length of the playing one. Positions are whole seconds here; a caller that
 * holds milliseconds passes `ms / 1000`, which is `Math.floor` of the seconds.
 */
module Clock {
  import opened Wrappers
  import opened Decimal
  import opened Episode

  /** JavaScript's `a % b` for a positive divisor: the remainder takes the sign of `a`. */
  function TruncRem(a: int, b: int): (r: int)
    requires b > 0
    ensures a >= 0 ==> r == a % b
    ensures a < 0 ==> r == -((-a) % b)
    ensures -b < r < b
  {
    if a >= 0 then a % b else -((-a) % b)
  }

  /** `formatTime`: `floor(sec / 60)` and `floor(sec % 60)`, each rendered and padded to two characters. */
  function ClockLabel(sec: int): string {
    PadStart2(IntToString(sec / 60)) + ":" + PadStart2(IntToString(TruncRem(sec, 60)))
  }

  /** The minutes field of a label: everything before the last three characters. */
  function MinutesField(shown: string): string
    requires |shown| >= 3
  {
    shown[..|shown| - 3]
  }

  /** The seconds field of a label: its last two characters. */
  function SecondsField(shown: string): string
    requires |shown| >= 2
  {
    shown[|shown| - 2..]
  }

  /**
   * For a non-negative position the label is `MM:SS` with a two-digit seconds field below 60 and
   * a minutes field of at least two digits; together they read back as the position.
   */
  lemma ClockLabelReadsBack(sec: nat)
    ensures var shown := ClockLabel(sec);
            |shown| >= 5 && shown[|shown| - 3] == ':'
            && |MinutesField(shown)| >= 2
            && AllDigits(MinutesField(shown)) && AllDigits(SecondsField(shown))
            && DigitsValue(SecondsField(shown)) < 60
            && 60 * DigitsValue(MinutesField(shown)) + DigitsValue(SecondsField(shown)) == sec
  {
    var mm := PadStart2(NatToString(sec / 60));
    var ss := PadStart2(NatToString(sec % 60));
    PadKeepsValue(NatToString(sec / 60));
    SecondsDigits(sec % 60);
    var shown := mm + ":" + ss;
    assert ClockLabel(sec) == shown;
    assert MinutesField(shown) == mm;
    assert SecondsField(shown) == ss;
  }

  /** A seconds count renders, padded, as exactly two digits reading back as that count. */
  lemma SecondsDigits(n: nat)
    requires n < 60
    ensures var ss := PadStart2(NatToString(n));
            |ss| == 2 && AllDigits(ss) && DigitsValue(ss) == n
  {
    var s := NatToString(n);
    if n >= 10 {
      assert s == NatToString(n / 10) + [DigitChar(n % 10)];
    }
    PadKeepsValue(s);
  }

  /** Zero padding: a position under ten minutes has a two-digit minutes field. */
  lemma ClockLabelExamples()
    ensures ClockLabel(0) == "00:00"
    ensures ClockLabel(75) == "01:15"
  {
    assert NatToString(0) == "0" && NatToString(1) == "1";
    assert NatToString(15) == "15" by {
      assert NatToString(1) == "1";
    }
  }

  /** A negative position keeps both signs, since the remainder is truncated: `-5` seconds reads `-1:-5`. */
  lemma NegativeClockLabel()
    ensures ClockLabel(-5) == "-1:-5"
  {
    assert NatToString(1) == "1" && NatToString(5) == "5";
  }

  /** Padding only adds zeros. */
  lemma PadChars(s: string, c: char)
    ensures c in PadStart2(s) ==> c == '0' || c in s
  {
    if c in PadStart2(s) {
      var r := PadStart2(s);
      var i :| 0 <= i < |r| && r[i] == c;
      if i >= |r| - |s| {
        assert r[|r| - |s|..][i - (|r| - |s|)] == c;
      }
    }
  }

  /** A rendered integer holds only digits and a minus sign. */
  lemma IntChars(i: int, c: char)
    ensures c in IntToString(i) ==> IsDigit(c) || c == '-'
  {
    if c in IntToString(i) && i >= 0 {
      var r := IntToString(i);
      var k :| 0 <= k < |r| && r[k] == c;
    }
    if c in IntToString(i) && i < 0 {
      var r := NatToString(-i);
      assert IntToString(i) == "-" + r;
      if c != '-' {
        var k :| 0 <= k < |r| && r[k] == c;
      }
    }
  }

  /** A label holds only digits, `:` and minus signs, in particular no line break. */
  lemma ClockLabelChars(sec: int, c: char)
    ensures c in ClockLabel(sec) ==> IsDigit(c) || c == ':' || c == '-'
  {
    var a, b := IntToString(sec / 60), IntToString(TruncRem(sec, 60));
    PadChars(a, c);
    PadChars(b, c);
    IntChars(sec / 60, c);
    IntChars(TruncRem(sec, 60), c);
    assert ClockLabel(sec) == PadStart2(a) + ":" + PadStart2(b);
  }

  /** `Math.round(sec / 60)` for a whole number of seconds: the nearest minute, halves rounded up. */
  function RoundedMinutes(sec: int): (m: int)
    ensures 60 * m - 30 <= sec < 60 * m + 30
  {
    (sec + 30) / 60
  }

  /**
   * `toDurationLabel`: `--` for zero, NaN and anything not positive, otherwise the rounded
   * number of minutes followed by `m` (positive infinity renders as `Infinity`).
   */
  function DurationLabel(sec: Num): string {
    match sec
    case Finite(v) => if v > 0 then IntToString(RoundedMinutes(v)) + "m" else "--"
    case PosInf => "Infinitym"
    case NegInf => "--"
    case NaN => "--"
  }

  /** The placeholder is shown exactly for durations that are not positive numbers. */
  lemma DurationLabelPlaceholder(sec: Num)
    ensures DurationLabel(sec) == "--" <==> !(sec.PosInf? || (sec.Finite? && sec.value > 0))
  {
    if sec.Finite? && sec.value > 0 {
      var r := DurationLabel(sec);
      assert r[|r| - 1] == 'm';
    }
    if sec.PosInf? {
      assert DurationLabel(sec)[0] == 'I';
    }
  }

  /** A positive duration is labelled with its nearest whole minute. */
  lemma DurationLabelMinutes(sec: int)
    requires sec > 0
    ensures var m := RoundedMinutes(sec);
            m >= 0 && DurationLabel(Finite(sec)) == NatToString(m) + "m"
            && 60 * m - 30 <= sec < 60 * m + 30
  {
  }

  /**
   * The length under the title: empty when the duration is missing, zero or NaN, otherwise
   * `floor(d / 60)` minutes and `floor(d % 60)` seconds padded to two characters.
   */
  function DurationText(durationSec: Option<Num>): string {
    match durationSec
    case None => ""
    case Some(Finite(v)) =>
      if v == 0 then "" else IntToString(v / 60) + "m " + PadStart2(IntToString(TruncRem(v, 60))) + "s"
    case Some(PosInf) => "Infinitym NaNs"
    case Some(NegInf) => "-Infinitym NaNs"
    case Some(NaN) => ""
  }

  /** A positive duration is rendered from its whole minutes and its remaining seconds. */
  lemma DurationTextParts(v: int)
    requires v > 0
    ensures DurationText(Some(Finite(v))) == NatToString(v / 60) + "m " + PadStart2(NatToString(v % 60)) + "s"
  {
    assert IntToString(v / 60) == NatToString(v / 60);
    assert TruncRem(v, 60) == v % 60;
  }

  /** A positive duration splits into whole minutes and a two-digit seconds field below 60. */
  lemma DurationTextSplits(v: int)
    requires v > 0
    ensures DurationText(Some(Finite(v))) == NatToString(v / 60) + "m " + PadStart2(NatToString(v % 60)) + "s"
    ensures |PadStart2(NatToString(v % 60))| == 2
    ensures DigitsValue(PadStart2(NatToString(v % 60))) < 60 && AllDigits(PadStart2(NatToString(v % 60)))
    ensures 60 * DigitsValue(NatToString(v / 60)) + DigitsValue(PadStart2(NatToString(v % 60))) == v
  {
    DurationTextParts(v);
    SecondsDigits(v % 60);
  }

  /** Nothing is shown for a missing, zero or NaN duration. */
  lemma DurationTextEmpty(durationSec: Option<Num>)
    ensures DurationText(durationSec) == [] <==> durationSec.None? || durationSec == Some(NaN) || durationSec == Some(Finite(0))
  {
    if durationSec.Some? && durationSec.value.Finite? && durationSec.value.value != 0 {
      var v := durationSec.value.value;
      var r := DurationText(durationSec);
      assert r[|r| - 1] == 's';
    }
  }
}
