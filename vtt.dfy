/** stripVttToPlainText: the worker's line filter from a WebVTT caption file
    to one line of plain text (index.js:83-101). */
module Vtt {
  import opened Text

  /** String.prototype.split(/\r?\n/): pieces between line feeds, where a
      carriage return directly before a line feed belongs to the separator. */
  function SplitLines(s: string): (lines: seq<string>)
    ensures |lines| >= 1
    ensures forall k :: 0 <= k < |lines| ==> '\n' !in lines[k]
    decreases |s|
  {
    if s == [] then [""]
    else if s[0] == '\n' then [""] + SplitLines(s[1..])
    else if |s| >= 2 && s[0] == '\r' && s[1] == '\n' then [""] + SplitLines(s[2..])
    else
      var rest := SplitLines(s[1..]);
      [[s[0]] + rest[0]] + rest[1..]
  }

  /** s.replace(/\r\n/g, "\n"): every CR LF pair, taken left to right, becomes a single LF. */
  function NormalizeNewlines(s: string): string
    decreases |s|
  {
    if s == [] then ""
    else if |s| >= 2 && s[0] == '\r' && s[1] == '\n' then "\n" + NormalizeNewlines(s[2..])
    else [s[0]] + NormalizeNewlines(s[1..])
  }

  predicate IsDigit(c: char) {
    '0' <= c <= '9'
  }

  /** The regular expression /^\d+$/. */
  predicate AllDigits(t: string) {
    |t| > 0 && forall k :: 0 <= k < |t| ==> IsDigit(t[k])
  }

  /** \d{2}:\d{2}:\d{2}\.\d{3} at index i, such as 00:01:02.345. */
  predicate TimestampAt(s: string, i: nat) {
    i + 12 <= |s| &&
    IsDigit(s[i]) && IsDigit(s[i + 1]) && s[i + 2] == ':' &&
    IsDigit(s[i + 3]) && IsDigit(s[i + 4]) && s[i + 5] == ':' &&
    IsDigit(s[i + 6]) && IsDigit(s[i + 7]) && s[i + 8] == '.' &&
    IsDigit(s[i + 9]) && IsDigit(s[i + 10]) && IsDigit(s[i + 11])
  }

  /** The first index at or after i that does not hold white space. */
  function SkipWhitespace(s: string, i: nat): (j: nat)
    requires i <= |s|
    ensures i <= j <= |s|
    ensures forall k :: i <= k < j ==> IsWhitespace(s[k])
    ensures j == |s| || !IsWhitespace(s[j])
    decreases |s| - i
  {
    if i < |s| && IsWhitespace(s[i]) then SkipWhitespace(s, i + 1) else i
  }

  /** The timing regular expression
      /^\d{2}:\d{2}:\d{2}\.\d{3}\s+-->\s+\d{2}:\d{2}:\d{2}\.\d{3}/,
      matched the way its greedy white-space runs force: each run is the
      longest one, since neither '-' nor a digit is white space. The pattern
      is anchored at the start only, so anything may follow the second
      timestamp. */
  predicate StartsWithTiming(t: string) {
    TimestampAt(t, 0) &&
    var a := SkipWhitespace(t, 12);
    a > 12 && a + 3 <= |t| && t[a..a + 3] == "-->" &&
    var b := SkipWhitespace(t, a + 3);
    b > a + 3 && TimestampAt(t, b)
  }

  /** The same pattern stated by where its pieces lie: the arrow at index a,
      the second timestamp at index b, white space (at least one) in between. */
  predicate TimingShape(t: string, a: nat, b: nat) {
    TimestampAt(t, 0) && 12 < a && a + 3 < b && TimestampAt(t, b) &&
    (forall k :: 12 <= k < a ==> IsWhitespace(t[k])) &&
    t[a..a + 3] == "-->" &&
    (forall k :: a + 3 <= k < b ==> IsWhitespace(t[k]))
  }

  /** A trimmed line that survives the filter: not blank, not the exact
      header WEBVTT, not a cue number, not a timing line. */
  predicate IsCueText(t: string) {
    t != "" && t != "WEBVTT" && !AllDigits(t) && !StartsWithTiming(t)
  }

  /** The trim of every line, in order. */
  function TrimAll(lines: seq<string>): seq<string> {
    seq(|lines|, k requires 0 <= k < |lines| => Trim(lines[k]))
  }

  /** The elements of xs that keep accepts, in order. */
  function Filter(xs: seq<string>, keep: string -> bool): seq<string> {
    if xs == [] then []
    else
      var prefix := Filter(xs[..|xs| - 1], keep);
      if keep(xs[|xs| - 1]) then prefix + [xs[|xs| - 1]] else prefix
  }

  /** The positions of the elements of xs that keep accepts, in order. */
  function FilterIndices(xs: seq<string>, keep: string -> bool): seq<nat> {
    if xs == [] then []
    else
      var prefix := FilterIndices(xs[..|xs| - 1], keep);
      if keep(xs[|xs| - 1]) then prefix + [|xs| - 1] else prefix
  }

  /** The trimmed lines that survive the four guards, in input order: the
      array `out` once the loop is over. */
  function Survivors(lines: seq<string>): seq<string> {
    Filter(TrimAll(lines), IsCueText)
  }

  /** The indices of the lines that survive. */
  function KeptIndices(lines: seq<string>): seq<nat> {
    FilterIndices(TrimAll(lines), IsCueText)
  }

  /** The value stripVttToPlainText returns. */
  function StripText(vtt: string): string {
    Join(Survivors(SplitLines(vtt)), " ")
  }

  /** stripVttToPlainText: the loop over the lines with its four `continue`
      guards, then the join with single spaces. */
  method StripVttToPlainText(vtt: string) returns (text: string)
    ensures text == StripText(vtt)
  {
    var lines := SplitLines(vtt);
    var out: seq<string> := [];
    for i := 0 to |lines|
      invariant out == Survivors(lines[..i])
    {
      var trimmed := Trim(lines[i]);
      SurvivorsStep(lines, i);
      if trimmed == "" {
        continue;
      }
      if trimmed == "WEBVTT" {
        continue;
      }
      if AllDigits(trimmed) {
        continue;
      }
      if StartsWithTiming(trimmed) {
        continue;
      }
      out := out + [trimmed];
    }
    assert lines[..|lines|] == lines;
    text := Join(out, " ");
  }

  /** One more line either adds its trim to the survivors or leaves them alone. */
  lemma SurvivorsStep(lines: seq<string>, i: nat)
    requires i < |lines|
    ensures Survivors(lines[..i + 1]) ==
      if IsCueText(Trim(lines[i])) then Survivors(lines[..i]) + [Trim(lines[i])] else Survivors(lines[..i])
  {
    var ts := TrimAll(lines[..i + 1]);
    assert ts[..i] == TrimAll(lines[..i]);
    assert ts[i] == Trim(lines[i]);
  }

  // ---------------------------------------------------------------------
  // What the filter keeps

  lemma {:induction false} FilterIndicesMatch(xs: seq<string>, keep: string -> bool)
    ensures |FilterIndices(xs, keep)| == |Filter(xs, keep)|
    ensures forall k :: 0 <= k < |FilterIndices(xs, keep)| ==>
      FilterIndices(xs, keep)[k] < |xs| && Filter(xs, keep)[k] == xs[FilterIndices(xs, keep)[k]]
  {
    if xs != [] {
      var n := |xs| - 1;
      FilterIndicesMatch(xs[..n], keep);
    }
  }

  lemma {:induction false} FilterIndicesIncrease(xs: seq<string>, keep: string -> bool)
    ensures forall k :: 0 <= k < |FilterIndices(xs, keep)| ==> FilterIndices(xs, keep)[k] < |xs|
    ensures forall k, m :: 0 <= k < m < |FilterIndices(xs, keep)| ==>
      FilterIndices(xs, keep)[k] < FilterIndices(xs, keep)[m]
  {
    if xs != [] {
      FilterIndicesIncrease(xs[..|xs| - 1], keep);
    }
  }

  lemma {:induction false} FilterIndicesComplete(xs: seq<string>, keep: string -> bool)
    ensures forall j :: 0 <= j < |xs| ==> (keep(xs[j]) <==> j in FilterIndices(xs, keep))
  {
    if xs != [] {
      var n := |xs| - 1;
      FilterIndicesComplete(xs[..n], keep);
      FilterIndicesIncrease(xs[..n], keep);
      assert n !in FilterIndices(xs[..n], keep);
    }
  }

  /** The surviving pieces are exactly the trims of the lines that pass the
      filter, in input order: position k of the output comes from line
      KeptIndices(lines)[k], the indices increase, and a line is used
      exactly when its trim is cue text. */
  lemma SurvivorsAreKeptLinesInOrder(lines: seq<string>)
    ensures |KeptIndices(lines)| == |Survivors(lines)|
    ensures forall k :: 0 <= k < |KeptIndices(lines)| ==>
      KeptIndices(lines)[k] < |lines| && Survivors(lines)[k] == Trim(lines[KeptIndices(lines)[k]])
    ensures forall k, m :: 0 <= k < m < |KeptIndices(lines)| ==> KeptIndices(lines)[k] < KeptIndices(lines)[m]
    ensures forall j :: 0 <= j < |lines| ==> (IsCueText(Trim(lines[j])) <==> j in KeptIndices(lines))
    ensures forall k :: 0 <= k < |Survivors(lines)| ==> IsCueText(Survivors(lines)[k])
  {
    var ts := TrimAll(lines);
    var out, idx := Survivors(lines), KeptIndices(lines);
    FilterIndicesMatch(ts, IsCueText);
    FilterIndicesIncrease(ts, IsCueText);
    FilterIndicesComplete(ts, IsCueText);
    assert forall k :: 0 <= k < |idx| ==> idx[k] < |lines| && out[k] == Trim(lines[idx[k]]);
    forall k | 0 <= k < |out|
      ensures IsCueText(out[k])
    {
      assert idx[k] in idx;
    }
  }

  /** Every surviving piece is non-empty and has no white space at either end. */
  lemma SurvivorsAreTrimmed(lines: seq<string>)
    ensures forall k :: 0 <= k < |Survivors(lines)| ==>
      Survivors(lines)[k] != [] &&
      !IsWhitespace(Survivors(lines)[k][0]) &&
      !IsWhitespace(Survivors(lines)[k][|Survivors(lines)[k]| - 1])
  {
    SurvivorsAreKeptLinesInOrder(lines);
    forall k | 0 <= k < |Survivors(lines)|
      ensures Survivors(lines)[k] == Trim(lines[KeptIndices(lines)[k]])
    {
    }
  }

  /** The text is already trimmed, so the handler's `text.trim()` is the text itself. */
  lemma StripTextIsTrimmed(vtt: string)
    ensures Trim(StripText(vtt)) == StripText(vtt)
  {
    var out := Survivors(SplitLines(vtt));
    SurvivorsAreTrimmed(SplitLines(vtt));
    if out != [] {
      JoinEnds(out, " ");
    }
    TrimOfTrimmed(StripText(vtt));
  }

  lemma {:induction false} FilterEmptyIff(xs: seq<string>, keep: string -> bool)
    ensures Filter(xs, keep) == [] <==> forall j :: 0 <= j < |xs| ==> !keep(xs[j])
  {
    if xs != [] {
      var n := |xs| - 1;
      FilterEmptyIff(xs[..n], keep);
      assert forall j :: 0 <= j < n ==> xs[..n][j] == xs[j];
    }
  }

  /** No line survives exactly when no line's trim is cue text. */
  lemma SurvivorsEmptyIff(lines: seq<string>)
    ensures Survivors(lines) == [] <==> forall j :: 0 <= j < |lines| ==> !IsCueText(Trim(lines[j]))
  {
    var ts := TrimAll(lines);
    FilterEmptyIff(ts, IsCueText);
    assert forall j :: 0 <= j < |lines| ==> ts[j] == Trim(lines[j]);
  }

  /** The text is empty exactly when no line of the input is cue text: a file
      made only of blank lines, the WEBVTT header, cue numbers and timing
      lines gives the empty string, and nothing else does. */
  lemma StripTextEmptyIff(vtt: string)
    ensures StripText(vtt) == "" <==>
      forall j :: 0 <= j < |SplitLines(vtt)| ==> !IsCueText(Trim(SplitLines(vtt)[j]))
  {
    var lines := SplitLines(vtt);
    var out := Survivors(lines);
    SurvivorsEmptyIff(lines);
    if out != [] {
      SurvivorsAreTrimmed(lines);
      JoinEnds(out, " ");
      assert StripText(vtt) == Join(out, " ") && StripText(vtt) != "";
      var j :| 0 <= j < |lines| && IsCueText(Trim(lines[j]));
      assert IsCueText(Trim(SplitLines(vtt)[j]));
    } else {
      assert StripText(vtt) == Join([], " ");
    }
  }

  // ---------------------------------------------------------------------
  // The timing pattern

  /** SkipWhitespace lands on the first non-white-space index of a run. */
  lemma SkipWhitespaceAt(t: string, i: nat, j: nat)
    requires i <= j < |t|
    requires forall k :: i <= k < j ==> IsWhitespace(t[k])
    requires !IsWhitespace(t[j])
    ensures SkipWhitespace(t, i) == j
  {
  }

  /** The greedy matcher accepts exactly the strings of the timing shape. */
  lemma StartsWithTimingIff(t: string)
    ensures StartsWithTiming(t) <==> exists a: nat, b: nat :: TimingShape(t, a, b)
  {
    if StartsWithTiming(t) {
      var a := SkipWhitespace(t, 12);
      var b := SkipWhitespace(t, a + 3);
      assert TimingShape(t, a, b);
    }
    if a: nat, b: nat :| TimingShape(t, a, b) {
      assert t[a] == '-';
      SkipWhitespaceAt(t, 12, a);
      assert IsDigit(t[b]);
      SkipWhitespaceAt(t, a + 3, b);
    }
  }

  /** Whatever follows a timing line's second timestamp (cue settings such as
      `align:start position:0%`) does not stop the line from matching. */
  lemma TimingIgnoresCueSettings(t: string, settings: string)
    requires StartsWithTiming(t)
    ensures StartsWithTiming(t + settings)
  {
    StartsWithTimingIff(t);
    var a: nat, b: nat :| TimingShape(t, a, b);
    var u := t + settings;
    assert u[..|t|] == t;
    TimingShapeExtends(t, u, a, b);
    StartsWithTimingIff(u);
  }

  lemma TimingShapeExtends(t: string, u: string, a: nat, b: nat)
    requires TimingShape(t, a, b) && |t| <= |u| && u[..|t|] == t
    ensures TimingShape(u, a, b)
  {
    assert forall k :: 0 <= k < |t| ==> u[k] == t[k] by {
      forall k | 0 <= k < |t| ensures u[k] == t[k] {
        assert u[..|t|][k] == u[k];
      }
    }
    TimestampExtends(t, u, 0);
    TimestampExtends(t, u, b);
    assert u[a..a + 3] == t[a..a + 3];
  }

  lemma TimestampExtends(t: string, u: string, i: nat)
    requires TimestampAt(t, i) && |t| <= |u| && forall k :: 0 <= k < |t| ==> u[k] == t[k]
    ensures TimestampAt(u, i)
  {
  }

  /** Every line made of two timestamps around an arrow, with white space
      on both sides of the arrow and anything after the second timestamp, is
      a timing line and is dropped, such as YouTube's
      `00:00:01.120 --> 00:00:03.450 align:start position:0%`. */
  lemma TimingLinesDropped(start: string, gap1: string, gap2: string, end: string, settings: string)
    requires |start| == 12 && TimestampAt(start, 0) && |end| == 12 && TimestampAt(end, 0)
    requires gap1 != [] && AllWhitespace(gap1) && gap2 != [] && AllWhitespace(gap2)
    ensures StartsWithTiming(start + gap1 + "-->" + gap2 + end + settings)
    ensures !IsCueText(start + gap1 + "-->" + gap2 + end + settings)
  {
    var t := start + gap1 + "-->" + gap2 + end + settings;
    var a := 12 + |gap1|;
    var b := a + 3 + |gap2|;
    assert t[..12] == start;
    assert t[12..a] == gap1;
    assert t[a..a + 3] == "-->";
    assert t[a + 3..b] == gap2;
    assert t[b..b + 12] == end;
    assert forall k :: 12 <= k < a ==> t[k] == gap1[k - 12];
    assert forall k :: a + 3 <= k < b ==> t[k] == gap2[k - a - 3];
    assert TimingShape(t, a, b);
    StartsWithTimingIff(t);
  }

  /** A non-empty trimmed line that does not start with a digit is dropped
      exactly when it is WEBVTT: header lines such as `Kind: captions`,
      `Language: en` or `WEBVTT - title` are kept. */
  lemma OnlyExactHeaderDropped(t: string)
    requires t != [] && !IsDigit(t[0])
    ensures IsCueText(t) <==> t != "WEBVTT"
  {
  }

  lemma KindHeaderKept()
    ensures IsCueText("Kind: captions") && !IsCueText("WEBVTT")
  {
    OnlyExactHeaderDropped("Kind: captions");
  }

  // ---------------------------------------------------------------------
  // Line endings

  /** Two lists of lines that agree once trailing white space is removed. */
  predicate SameLineEnds(xs: seq<string>, ys: seq<string>) {
    |xs| == |ys| && forall k :: 0 <= k < |xs| ==> TrimEnd(xs[k]) == TrimEnd(ys[k])
  }

  /** Splitting after CR LF has become LF gives the same lines up to a
      trailing carriage return. */
  lemma {:induction false} SplitAfterNormalize(s: string)
    ensures SameLineEnds(SplitLines(s), SplitLines(NormalizeNewlines(s)))
    decreases |s|
  {
    var n := NormalizeNewlines(s);
    if s == [] {
    } else if |s| >= 2 && s[0] == '\r' && s[1] == '\n' {
      SplitAfterNormalize(s[2..]);
      assert n[1..] == NormalizeNewlines(s[2..]);
      ConsSameLineEnds("", "", SplitLines(s[2..]), SplitLines(n[1..]));
    } else if s[0] == '\n' {
      SplitAfterNormalize(s[1..]);
      assert n[1..] == NormalizeNewlines(s[1..]);
      ConsSameLineEnds("", "", SplitLines(s[1..]), SplitLines(n[1..]));
    } else if s[0] == '\r' && |s| >= 3 && s[1] == '\r' && s[2] == '\n' {
      // "\r\r\n": the first CR stays in its line, the second pair becomes the separator
      SplitAfterNormalize(s[3..]);
      SplitCrCrLf(s);
      ConsSameLineEnds("\r", "", SplitLines(s[3..]), SplitLines(NormalizeNewlines(s[3..])));
    } else {
      SplitAfterNormalize(s[1..]);
      SplitPlainChar(s);
      var r, r' := SplitLines(s[1..]), SplitLines(NormalizeNewlines(s[1..]));
      TrimEndCons(s[0], r[0]);
      TrimEndCons(s[0], r'[0]);
      assert r == [r[0]] + r[1..] && r' == [r'[0]] + r'[1..];
      ConsSameLineEnds([s[0]] + r[0], [s[0]] + r'[0], r[1..], r'[1..]);
    }
  }

  lemma SplitCrCrLf(s: string)
    requires |s| >= 3 && s[0] == '\r' && s[1] == '\r' && s[2] == '\n'
    ensures SplitLines(s) == ["\r"] + SplitLines(s[3..])
    ensures SplitLines(NormalizeNewlines(s)) == [""] + SplitLines(NormalizeNewlines(s[3..]))
  {
    SplitLinesCrCrLf(s);
    NormalizeCrCrLf(s);
    var n := NormalizeNewlines(s);
    assert n[0] == '\r' && n[1] == '\n';
  }

  lemma SplitLinesCrCrLf(s: string)
    requires |s| >= 3 && s[0] == '\r' && s[1] == '\r' && s[2] == '\n'
    ensures SplitLines(s) == ["\r"] + SplitLines(s[3..])
  {
    var t := s[1..];
    assert t[0] == '\r' && t[1] == '\n' && t[2..] == s[3..];
    var rest := SplitLines(t);
    assert rest == [""] + SplitLines(s[3..]);
    assert [s[0]] + rest[0] == "\r";
  }

  lemma NormalizeCrCrLf(s: string)
    requires |s| >= 3 && s[0] == '\r' && s[1] == '\r' && s[2] == '\n'
    ensures NormalizeNewlines(s) == "\r\n" + NormalizeNewlines(s[3..])
  {
    var t := s[1..];
    assert t[0] == '\r' && t[1] == '\n' && t[2..] == s[3..];
    assert NormalizeNewlines(t) == "\n" + NormalizeNewlines(s[3..]);
  }

  lemma SplitPlainChar(s: string)
    requires s != [] && s[0] != '\n' && !(|s| >= 2 && s[0] == '\r' && s[1] == '\n')
    requires !(|s| >= 3 && s[0] == '\r' && s[1] == '\r' && s[2] == '\n')
    ensures var r' := SplitLines(NormalizeNewlines(s[1..]));
      SplitLines(NormalizeNewlines(s)) == [[s[0]] + r'[0]] + r'[1..]
  {
    var tail := NormalizeNewlines(s[1..]);
    var n := NormalizeNewlines(s);
    assert n == [s[0]] + tail;
    assert n[1..] == tail;
    if s[0] == '\r' && tail != [] {
      NormalizeHead(s[1..]);
    }
  }

  /** Normalising keeps a first character other than CR. */
  lemma NormalizeHead(s: string)
    requires s != [] && !(|s| >= 2 && s[0] == '\r' && s[1] == '\n')
    ensures NormalizeNewlines(s) != [] && NormalizeNewlines(s)[0] == s[0]
  {
  }

  lemma ConsSameLineEnds(x: string, y: string, xs: seq<string>, ys: seq<string>)
    requires TrimEnd(x) == TrimEnd(y)
    requires SameLineEnds(xs, ys)
    ensures SameLineEnds([x] + xs, [y] + ys)
  {
    forall k | 0 <= k < |xs| + 1
      ensures TrimEnd(([x] + xs)[k]) == TrimEnd(([y] + ys)[k])
    {
      if k > 0 {
        assert ([x] + xs)[k] == xs[k - 1] && ([y] + ys)[k] == ys[k - 1];
      }
    }
  }

  /** Lines with the same trims leave the same survivors. */
  lemma SurvivorsUseTrimsOnly(xs: seq<string>, ys: seq<string>)
    requires |xs| == |ys| && forall k :: 0 <= k < |xs| ==> Trim(xs[k]) == Trim(ys[k])
    ensures Survivors(xs) == Survivors(ys)
  {
    assert TrimAll(xs) == TrimAll(ys);
  }

  /** Replacing every CR LF with LF does not change the text. */
  lemma CrLfInsensitive(vtt: string)
    ensures StripText(NormalizeNewlines(vtt)) == StripText(vtt)
  {
    SplitAfterNormalize(vtt);
    SurvivorsUseTrimsOnly(SplitLines(vtt), SplitLines(NormalizeNewlines(vtt)));
  }

  /** Joining the lines again with LF gives the input with CR LF turned into LF. */
  lemma {:induction false} SplitLinesRoundTrip(s: string)
    ensures Join(SplitLines(s), "\n") == NormalizeNewlines(s)
    decreases |s|
  {
    if s == [] {
    } else if s[0] == '\n' {
      SplitLinesRoundTrip(s[1..]);
      JoinCons("", SplitLines(s[1..]), "\n");
    } else if |s| >= 2 && s[0] == '\r' && s[1] == '\n' {
      SplitLinesRoundTrip(s[2..]);
      JoinCons("", SplitLines(s[2..]), "\n");
    } else {
      SplitLinesRoundTrip(s[1..]);
      var rest := SplitLines(s[1..]);
      assert rest == [rest[0]] + rest[1..];
      JoinHeadChar(s[0], rest[0], rest[1..], "\n");
    }
  }

  lemma JoinCons(x: string, xs: seq<string>, sep: string)
    requires xs != []
    ensures Join([x] + xs, sep) == x + sep + Join(xs, sep)
  {
    assert ([x] + xs)[1..] == xs;
  }

  lemma JoinHeadChar(c: char, x: string, xs: seq<string>, sep: string)
    ensures Join([[c] + x] + xs, sep) == [c] + Join([x] + xs, sep)
  {
    assert ([[c] + x] + xs)[1..] == xs;
    assert ([x] + xs)[1..] == xs;
  }
}
