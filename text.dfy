/**
 * The JavaScript string primitives the core relies on: `trim`, `replace(/\s+/g, ' ')`,
 * `split`, `join`, `includes`, `filter(Boolean)`, `toLowerCase` and the CRLF rewrite.
 * Whitespace is the ASCII part of the class shared by `trim` and `\s`.
 */
module Text {
  import opened Wrappers

  predicate IsSpace(c: char) {
    c == ' ' || c == '\t' || c == '\n' || c == '\r' || c == '\U{000B}' || c == '\U{000C}'
  }

  predicate AllSpaces(s: string) {
    forall i :: 0 <= i < |s| ==> IsSpace(s[i])
  }

  /** Neither end of `s` is whitespace. */
  predicate IsTrimmed(s: string) {
    s == [] || (!IsSpace(s[0]) && !IsSpace(s[|s| - 1]))
  }

  /** No two adjacent characters of `s` are both whitespace. */
  predicate NoSpaceRuns(s: string) {
    |s| < 2 || (!(IsSpace(s[0]) && IsSpace(s[1])) && NoSpaceRuns(s[1..]))
  }

  /** The only whitespace character in `s` is the plain space. */
  predicate OnlyPlainSpaces(s: string) {
    forall i :: 0 <= i < |s| && IsSpace(s[i]) ==> s[i] == ' '
  }

  /** The non-whitespace characters of `s`, in order. */
  function Visible(s: string): string {
    if s == [] then [] else (if IsSpace(s[0]) then [] else [s[0]]) + Visible(s[1..])
  }

  /** Every character of `s[lo..hi]` is whitespace. */
  predicate SpaceRange(s: string, lo: nat, hi: nat)
    requires lo <= hi <= |s|
  {
    forall i :: lo <= i < hi ==> IsSpace(s[i])
  }

  lemma SpaceRangeSlice(s: string, lo: nat, hi: nat)
    requires lo <= hi <= |s| && SpaceRange(s, lo, hi)
    ensures AllSpaces(s[lo..hi])
  {
    assert forall i :: 0 <= i < hi - lo ==> s[lo..hi][i] == s[lo + i];
  }

  /** The number of whitespace characters that open `s`. */
  function LeadingSpaces(s: string): (n: nat)
    ensures n <= |s| && SpaceRange(s, 0, n)
    ensures n < |s| ==> !IsSpace(s[n])
    decreases |s|
  {
    if s != [] && IsSpace(s[0]) then
      var n := 1 + LeadingSpaces(s[1..]);
      assert forall i :: 1 <= i < n ==> s[i] == s[1..][i - 1];
      assert n < |s| ==> s[n] == s[1..][n - 1];
      n
    else 0
  }

  /** The number of whitespace characters that close `s`. */
  function TrailingSpaces(s: string): (n: nat)
    ensures n <= |s| && SpaceRange(s, |s| - n, |s|)
    ensures n < |s| ==> !IsSpace(s[|s| - n - 1])
    decreases |s|
  {
    if s != [] && IsSpace(s[|s| - 1]) then
      var p := s[..|s| - 1];
      var m := TrailingSpaces(p);
      assert forall i :: |p| - m <= i < |p| ==> s[i] == p[i];
      assert m < |p| ==> s[|s| - m - 2] == p[|p| - m - 1];
      m + 1
    else 0
  }

  /** `String.prototype.trim`: the infix left after removing whitespace at both ends. */
  function Trim(s: string): (r: string)
    ensures IsTrimmed(r)
    ensures var a := LeadingSpaces(s); var b := TrailingSpaces(s[a..]);
            a + b <= |s| && r == s[a..|s| - b] && SpaceRange(s, 0, a) && SpaceRange(s, |s| - b, |s|)
  {
    var a := LeadingSpaces(s);
    var b := TrailingSpaces(s[a..]);
    TrimSuffix(s, a, b);
    TrimEnds(s, a, b);
    s[a..|s| - b]
  }

  lemma TrimSuffix(s: string, a: nat, b: nat)
    requires a <= |s| && b == TrailingSpaces(s[a..])
    ensures a + b <= |s| && SpaceRange(s, |s| - b, |s|)
  {
    var t := s[a..];
    assert forall j :: |s| - b <= j < |s| ==> s[j] == t[j - a];
  }

  lemma TrimEnds(s: string, a: nat, b: nat)
    requires a + b <= |s|
    requires a < |s| ==> !IsSpace(s[a])
    requires a + b < |s| ==> !IsSpace(s[a..][|s| - a - b - 1])
    ensures IsTrimmed(s[a..|s| - b])
  {
    var r := s[a..|s| - b];
    if r != [] {
      assert r[0] == s[a] && r[|r| - 1] == s[a..][|s| - a - b - 1];
    }
  }

  /** Trimming leaves nothing exactly when the input is all whitespace. */
  lemma TrimEmptyIff(s: string)
    ensures Trim(s) == [] <==> AllSpaces(s)
  {
    var a := LeadingSpaces(s);
    var b := TrailingSpaces(s[a..]);
    if Trim(s) == [] {
      assert forall i :: 0 <= i < |s| ==> IsSpace(s[i]) by {
        assert forall i :: 0 <= i < a ==> IsSpace(s[i]);
      }
    } else {
      var r := Trim(s);
      assert s[a] == r[0];
    }
  }

  /** A trimmed string is a fixpoint of `Trim`. */
  lemma TrimOfTrimmed(s: string)
    requires IsTrimmed(s)
    ensures Trim(s) == s
  {
    assert LeadingSpaces(s) == 0;
    assert s[0..] == s;
    assert TrailingSpaces(s) == 0;
  }

  /** `Trim` is idempotent. */
  lemma TrimIdempotent(s: string)
    ensures Trim(Trim(s)) == Trim(s)
  {
    TrimOfTrimmed(Trim(s));
  }

  lemma {:induction false} TrailingSpacesAppend(x: string, w: string)
    requires AllSpaces(w)
    ensures TrailingSpaces(x + w) == TrailingSpaces(x) + |w|
    decreases |w|
  {
    if w == [] {
      assert x + w == x;
    } else {
      assert (x + w)[..|x + w| - 1] == x + w[..|w| - 1];
      TrailingSpacesAppend(x, w[..|w| - 1]);
    }
  }

  /** Whitespace after a trimmed, non-empty string is all that `Trim` removes. */
  lemma TrimTrailingSpaces(x: string, w: string)
    requires x != [] && IsTrimmed(x) && AllSpaces(w)
    ensures Trim(x + w) == x
  {
    var s := x + w;
    assert LeadingSpaces(s) == 0;
    assert s[0..] == s;
    TrailingSpacesAppend(x, w);
    assert TrailingSpaces(x) == 0;
    assert s[0..|s| - |w|] == x;
  }

  /** A character of the trimmed string is a character of the input. */
  lemma TrimChars(s: string, c: char)
    requires c in Trim(s)
    ensures c in s
  {
    var r := Trim(s);
    var a := LeadingSpaces(s);
    var i :| 0 <= i < |r| && r[i] == c;
    assert s[a + i] == c;
  }

  lemma {:induction false} NoSpaceRunsPrefix(s: string, k: nat)
    requires k <= |s| && NoSpaceRuns(s)
    ensures NoSpaceRuns(s[..k])
    decreases |s|
  {
    if k >= 2 {
      assert s[..k][1..] == s[1..][..k - 1];
      NoSpaceRunsPrefix(s[1..], k - 1);
    }
  }

  lemma {:induction false} NoSpaceRunsSuffix(s: string, k: nat)
    requires k <= |s| && NoSpaceRuns(s)
    ensures NoSpaceRuns(s[k..])
    decreases k
  {
    if k > 0 {
      NoSpaceRunsSuffix(s[1..], k - 1);
      assert s[1..][k - 1..] == s[k..];
    }
  }

  /** Any infix of a collapsed string is collapsed. */
  lemma SliceKeepsNoSpaceRuns(s: string, a: nat, b: nat)
    requires a <= b <= |s| && NoSpaceRuns(s) && OnlyPlainSpaces(s)
    ensures NoSpaceRuns(s[a..b]) && OnlyPlainSpaces(s[a..b])
  {
    NoSpaceRunsPrefix(s, b);
    NoSpaceRunsSuffix(s[..b], a);
    assert s[..b][a..] == s[a..b];
    var t := s[a..b];
    forall i | 0 <= i < |t| && IsSpace(t[i]) ensures t[i] == ' ' {
      assert t[i] == s[a + i];
    }
  }

  /** `s.replace(/\s+/g, ' ')`: every maximal run of whitespace becomes a single space. */
  function CollapseSpaces(s: string): (r: string)
    ensures NoSpaceRuns(r) && OnlyPlainSpaces(r)
    ensures Visible(r) == Visible(s)
    ensures s == [] <==> r == []
    ensures s != [] ==> (IsSpace(s[0]) <==> IsSpace(r[0]))
    ensures s != [] && !IsSpace(s[0]) ==> r[0] == s[0]
    decreases |s|
  {
    if s == [] then []
    else if IsSpace(s[0]) then
      var k := LeadingSpaces(s);
      VisibleOfSpacePrefix(s, k);
      var r := " " + CollapseSpaces(s[k..]);
      assert r[1..] == CollapseSpaces(s[k..]);
      r
    else
      var r := [s[0]] + CollapseSpaces(s[1..]);
      assert r[1..] == CollapseSpaces(s[1..]);
      r
  }

  lemma {:induction false} VisibleOfSpacePrefix(s: string, k: nat)
    requires k <= |s| && SpaceRange(s, 0, k)
    ensures Visible(s) == Visible(s[k..])
    decreases k
  {
    if k > 0 {
      assert forall i :: 0 <= i < k - 1 ==> s[1..][i] == s[i + 1];
      VisibleOfSpacePrefix(s[1..], k - 1);
      assert s[1..][k - 1..] == s[k..];
    }
  }

  /** A string already in collapsed form is left alone by `CollapseSpaces`. */
  lemma {:induction false} CollapseNormalFixpoint(s: string)
    requires NoSpaceRuns(s) && OnlyPlainSpaces(s)
    ensures CollapseSpaces(s) == s
    decreases |s|
  {
    if s != [] {
      assert OnlyPlainSpaces(s[1..]) by {
        forall i | 0 <= i < |s| - 1 && IsSpace(s[1..][i]) ensures s[1..][i] == ' ' {
          assert s[1..][i] == s[i + 1];
        }
      }
      if IsSpace(s[0]) {
        assert s[0] == ' ';
        assert LeadingSpaces(s) == 1 by {
          assert |s| > 1 ==> !IsSpace(s[1]);
          assert LeadingSpaces(s[1..]) == 0;
        }
      }
      CollapseNormalFixpoint(s[1..]);
    }
  }

  lemma {:induction false} VisibleAppend(a: string, b: string)
    ensures Visible(a + b) == Visible(a) + Visible(b)
  {
    if a == [] {
      assert a + b == b;
    } else {
      assert (a + b)[1..] == a[1..] + b;
      VisibleAppend(a[1..], b);
    }
  }

  /** A string has no visible character exactly when it is all whitespace. */
  lemma {:induction false} VisibleEmpty(s: string)
    ensures Visible(s) == [] <==> AllSpaces(s)
  {
    if s != [] {
      VisibleEmpty(s[1..]);
      assert AllSpaces(s) <==> IsSpace(s[0]) && AllSpaces(s[1..]) by {
        assert forall i :: 0 <= i < |s| - 1 ==> s[1..][i] == s[i + 1];
      }
    }
  }

  lemma SliceTwo(s: string, k: nat)
    requires k <= |s|
    ensures s == s[..k] + s[k..]
  {
  }

  /** Trimming removes whitespace only. */
  lemma TrimKeepsVisible(s: string)
    ensures Visible(Trim(s)) == Visible(s)
  {
    var a := LeadingSpaces(s);
    var t := s[a..];
    var b := TrailingSpaces(t);
    var k := |t| - b;
    VisibleOfSpacePrefix(s, a);
    SliceTwo(t, k);
    VisibleAppend(t[..k], t[k..]);
    SpaceRangeSlice(t, k, |t|);
    VisibleEmpty(t[k..]);
    assert Trim(s) == t[..k];
  }

  predicate OccursAt(s: string, sub: string, i: nat) {
    i + |sub| <= |s| && s[i..i + |sub|] == sub
  }

  /** The leftmost occurrence of `sub` in `s` at index `from` or later. */
  function FindFrom(s: string, sub: string, from: nat): (r: Option<nat>)
    ensures r.Some? ==> from <= r.value && OccursAt(s, sub, r.value)
    ensures r.Some? ==> forall j :: from <= j < r.value ==> !OccursAt(s, sub, j)
    ensures r.None? ==> forall j :: from <= j ==> !OccursAt(s, sub, j)
    decreases |s| - from
  {
    if from + |sub| > |s| then None
    else if s[from..from + |sub|] == sub then Some(from)
    else FindFrom(s, sub, from + 1)
  }

  /** `s.indexOf(sub)`, with `None` for -1. */
  function FindFirst(s: string, sub: string): (r: Option<nat>)
    ensures r.Some? ==> OccursAt(s, sub, r.value) && forall j: nat :: j < r.value ==> !OccursAt(s, sub, j)
    ensures r.None? <==> forall j: nat :: !OccursAt(s, sub, j)
  {
    FindFrom(s, sub, 0)
  }

  /** `s.includes(sub)`. */
  predicate Contains(s: string, sub: string) {
    FindFirst(s, sub).Some?
  }

  lemma {:induction false} PrefixOccurrence(s: string, sub: string, i: nat, j: nat)
    requires i <= |s| && OccursAt(s[..i], sub, j)
    ensures OccursAt(s, sub, j)
  {
    assert s[..i][j..j + |sub|] == s[j..j + |sub|];
  }

  /** `parts.join(sep)`. */
  function Join(parts: seq<string>, sep: string): string {
    if |parts| == 0 then []
    else if |parts| == 1 then parts[0]
    else parts[0] + sep + Join(parts[1..], sep)
  }

  lemma JoinNonEmpty(parts: seq<string>, sep: string)
    requires parts != [] && parts[0] != []
    ensures Join(parts, sep) != []
  {
    if |parts| > 1 {
      assert Join(parts, sep) == parts[0] + sep + Join(parts[1..], sep);
    }
  }

  /**
   * `s.split(sep)` for a non-empty separator: the pieces between the leftmost non-overlapping
   * occurrences. Joining the pieces with `sep` gives back `s`, and no piece holds `sep`.
   */
  function Split(s: string, sep: string): (parts: seq<string>)
    requires sep != []
    ensures |parts| >= 1
    ensures Join(parts, sep) == s
    ensures forall i :: 0 <= i < |parts| ==> !Contains(parts[i], sep)
    decreases |s|
  {
    match FindFirst(s, sep)
    case None => [s]
    case Some(i) =>
      var rest := Split(s[i + |sep|..], sep);
      assert !Contains(s[..i], sep) by {
        forall j | OccursAt(s[..i], sep, j) ensures false {
          PrefixOccurrence(s, sep, i, j);
        }
      }
      assert s[..i] + sep + s[i + |sep|..] == s;
      [s[..i]] + rest
  }

  /** A one-character string occurs exactly where that character does. */
  lemma ContainsChar(p: string, c: char)
    ensures Contains(p, [c]) <==> c in p
  {
    if c in p {
      var i :| 0 <= i < |p| && p[i] == c;
      assert OccursAt(p, [c], i);
    }
    if Contains(p, [c]) {
      var i := FindFirst(p, [c]).value;
      assert p[i..i + 1][0] == c;
    }
  }

  /** Every character of a part is a character of the joined string. */
  lemma {:induction false} JoinChars(parts: seq<string>, sep: string, i: nat, c: char)
    requires i < |parts| && c in parts[i]
    ensures c in Join(parts, sep)
    decreases |parts|
  {
    if |parts| > 1 && i > 0 {
      JoinChars(parts[1..], sep, i - 1, c);
    }
  }

  /** The pieces of a split hold only characters of the split string. */
  lemma SplitChars(s: string, sep: string, i: nat, c: char)
    requires sep != [] && i < |Split(s, sep)| && c in Split(s, sep)[i]
    ensures c in s
  {
    JoinChars(Split(s, sep), sep, i, c);
  }

  lemma {:induction false} FirstOccurrenceAfterPart(p: string, c: char, rest: string)
    requires !Contains(p, [c])
    ensures FindFirst(p + [c] + rest, [c]) == Some(|p|)
  {
    var s := p + [c] + rest;
    assert OccursAt(s, [c], |p|);
    forall j: nat | j < |p| ensures !OccursAt(s, [c], j) {
      assert !OccursAt(p, [c], j);
      assert s[j..j + 1] == p[j..j + 1];
    }
  }

  /** With a one-character separator, splitting a join gives back the parts that lack it. */
  lemma {:induction false} SplitJoin(parts: seq<string>, c: char)
    requires |parts| >= 1
    requires forall i :: 0 <= i < |parts| ==> !Contains(parts[i], [c])
    ensures Split(Join(parts, [c]), [c]) == parts
  {
    if |parts| > 1 {
      var rest := Join(parts[1..], [c]);
      FirstOccurrenceAfterPart(parts[0], c, rest);
      var s := parts[0] + [c] + rest;
      assert s[..|parts[0]|] == parts[0];
      assert s[|parts[0]| + 1..] == rest;
      SplitJoin(parts[1..], c);
    }
  }

  /** `parts.filter(Boolean)` on strings: the empty strings are dropped, the rest keep their order. */
  function RemoveEmpty(parts: seq<string>): (r: seq<string>)
    ensures |r| <= |parts|
    ensures forall i :: 0 <= i < |r| ==> r[i] != []
    ensures forall x :: x in r <==> x in parts && x != []
  {
    if parts == [] then [] else (if parts[0] == [] then [] else [parts[0]]) + RemoveEmpty(parts[1..])
  }

  /** Dropping empty strings leaves a list without them unchanged. */
  lemma {:induction false} RemoveEmptyKeeps(parts: seq<string>)
    requires forall i :: 0 <= i < |parts| ==> parts[i] != []
    ensures RemoveEmpty(parts) == parts
  {
    if parts != [] {
      RemoveEmptyKeeps(parts[1..]);
    }
  }

  function LowerChar(c: char): char {
    if 'A' <= c <= 'Z' then (c as int + 32) as char else c
  }

  /** `toLowerCase` over ASCII letters; every other character is kept. */
  function Lower(s: string): (r: string)
    ensures |r| == |s|
  {
    seq(|s|, i requires 0 <= i < |s| => LowerChar(s[i]))
  }

  /** No carriage return in `s` is followed by a line feed. */
  predicate NoCrLf(s: string) {
    |s| < 2 || (!(s[0] == '\r' && s[1] == '\n') && NoCrLf(s[1..]))
  }

  /** `s.replace(/\r\n/g, '\n')`: one left-to-right pass over non-overlapping pairs. */
  function NormalizeNewlines(s: string): string
    decreases |s|
  {
    if |s| >= 2 && s[0] == '\r' && s[1] == '\n' then "\n" + NormalizeNewlines(s[2..])
    else if s == [] then []
    else [s[0]] + NormalizeNewlines(s[1..])
  }

  /** The CRLF rewrite adds no character other than the line feed. */
  lemma {:induction false} NormalizeChars(s: string, c: char)
    requires c in NormalizeNewlines(s) && c != '\n'
    ensures c in s
    decreases |s|
  {
    if |s| >= 2 && s[0] == '\r' && s[1] == '\n' {
      NormalizeChars(s[2..], c);
    } else if s != [] {
      if c != s[0] {
        NormalizeChars(s[1..], c);
      }
    }
  }

  /** The same text with CRLF line endings: every `\n` becomes `\r\n`. */
  function ToCrLf(s: string): (r: string)
    ensures r == [] || r[0] != '\n'
    ensures s == [] <==> r == []
  {
    if s == [] then []
    else (if s[0] == '\n' then "\r\n" else [s[0]]) + ToCrLf(s[1..])
  }

  /** Rewriting CRLF to LF undoes `ToCrLf` on every text. */
  lemma {:induction false} NormalizeUndoesCrLf(s: string)
    ensures NormalizeNewlines(ToCrLf(s)) == s
  {
    if s != [] {
      NormalizeUndoesCrLf(s[1..]);
      var t := ToCrLf(s[1..]);
      if s[0] == '\n' {
        assert ToCrLf(s) == "\r\n" + t;
        assert (("\r\n" + t)[2..]) == t;
      } else {
        assert ToCrLf(s) == [s[0]] + t;
        assert ([s[0]] + t)[1..] == t;
      }
    }
  }

  /** A text without CRLF pairs is unchanged by the rewrite. */
  lemma {:induction false} NormalizeWithoutCrLf(s: string)
    requires NoCrLf(s)
    ensures NormalizeNewlines(s) == s
  {
    if s != [] {
      NormalizeWithoutCrLf(s[1..]);
    }
  }
}
