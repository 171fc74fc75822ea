/**
 * The progress marker of the health check's output. The probe (ffmpeg)
 * reports `time=HH:MM:SS.cc bitrate=...`; the handler matches the pattern
 *   time=(?<hours>\d{1,2}):(?<minutes>\d{2}):(?<seconds>\d{2})?(?:\.(?<millisec>\d{0,3}))\sbitrate
 * at the leftmost position where it matches, and turns the captured groups
 * into a mark (h*3600 + m*60 + s)*1000 + millisec*10.
 */
module ProgressParser {
  import opened Wrappers
  import opened PhpStrings

  predicate IsDigit(c: char) {
    '0' <= c <= '9'
  }

  /** PCRE's \s: space, tab, LF, vertical tab, form feed, CR. */
  predicate IsSpace(c: char) {
    c == ' ' || c == '\t' || c == '\n' || c == '\U{B}' || c == '\U{C}' || c == '\r'
  }

  predicate AllDigits(s: string) {
    forall i :: 0 <= i < |s| ==> IsDigit(s[i])
  }

  /** The named groups of a match. An unmatched optional group is the empty string. */
  datatype ProgressFields = ProgressFields(hours: string, minutes: string, seconds: string, millisec: string)

  /** The group lengths the pattern admits. */
  predicate WellFormed(f: ProgressFields) {
    && 1 <= |f.hours| <= 2 && AllDigits(f.hours)
    && |f.minutes| == 2 && AllDigits(f.minutes)
    && (|f.seconds| == 0 || |f.seconds| == 2) && AllDigits(f.seconds)
    && |f.millisec| <= 3 && AllDigits(f.millisec)
  }

  /** The text of a match whose whitespace before `bitrate` is a single space. */
  function Render(f: ProgressFields): string {
    "time=" + f.hours + ":" + f.minutes + ":" + f.seconds + "." + f.millisec + " bitrate"
  }

  /** How many digits, at most `cap`, follow position `u`. */
  function DigitRun(s: string, u: nat, cap: nat): (n: nat)
    requires u <= |s|
    ensures n <= cap && u + n <= |s|
    ensures forall k :: u <= k < u + n ==> IsDigit(s[k])
    ensures n < cap ==> u + n == |s| || !IsDigit(s[u + n])
    decreases cap
  {
    if cap == 0 || u == |s| || !IsDigit(s[u]) then 0 else 1 + DigitRun(s, u + 1, cap - 1)
  }

  /** Length of the `hours` group at `p`: two digits if a colon follows them, else one, else no match (0). */
  function HoursLength(s: string, p: nat): (hl: nat)
    ensures hl <= 2 && (hl > 0 ==> p + hl < |s| && s[p + hl] == ':')
    ensures forall k :: p <= k < p + hl ==> IsDigit(s[k])
  {
    if p + 2 < |s| && IsDigit(s[p]) && IsDigit(s[p + 1]) && s[p + 2] == ':' then 2
    else if p + 1 < |s| && IsDigit(s[p]) && s[p + 1] == ':' then 1
    else 0
  }

  /** Two minute digits and a colon at `q`. */
  predicate MinutesAt(s: string, q: nat) {
    q + 2 < |s| && IsDigit(s[q]) && IsDigit(s[q + 1]) && s[q + 2] == ':'
  }

  /** Length of the optional `seconds` group at `r`, which the dot must follow; None if neither form matches. */
  function SecondsLength(s: string, r: nat): (sl: Option<nat>)
    ensures sl.Some? ==> (sl.value == 0 || sl.value == 2) && r + sl.value < |s| && s[r + sl.value] == '.'
    ensures sl.Some? ==> forall k :: r <= k < r + sl.value ==> IsDigit(s[k])
  {
    if r + 2 < |s| && IsDigit(s[r]) && IsDigit(s[r + 1]) && s[r + 2] == '.' then Some(2)
    else if r < |s| && s[r] == '.' then Some(0)
    else None
  }

  /** A whitespace character and the word `bitrate` at `v`. */
  predicate BitrateAt(s: string, v: nat) {
    v + 8 <= |s| && IsSpace(s[v]) && s[v + 1..v + 8] == "bitrate"
  }

  /**
   * The pattern matched at exactly position `i`. Greedy quantifiers with
   * backtracking reduce to one choice per group: an hour of two digits if a
   * colon follows them, else of one; seconds of two digits if a dot follows
   * them, else none; up to three fraction digits.
   */
  function MatchAt(s: string, i: nat): (r: Option<ProgressFields>)
    ensures r.Some? ==> WellFormed(r.value) && OccursAt(s, "time=", i)
  {
    if !OccursAt(s, "time=", i) then None else MatchClock(s, i + 5)
  }

  /** The groups after `time=`, which starts at `p`: hours, minutes, then the rest. */
  function MatchClock(s: string, p: nat): (r: Option<ProgressFields>)
    ensures r.Some? ==> WellFormed(r.value)
  {
    var hl := HoursLength(s, p);
    var q := p + hl + 1;
    if hl == 0 || !MinutesAt(s, q) then None
    else match MatchTail(s, q + 3)
      case None => None
      case Some(tail) => Some(ProgressFields(s[p..p + hl], s[q..q + 2], tail.0, tail.1))
  }

  /** The optional seconds, the dot, the fraction and the whitespace before `bitrate`, from `r`. */
  function MatchTail(s: string, r: nat): (t: Option<(string, string)>)
    ensures t.Some? ==> (|t.value.0| == 0 || |t.value.0| == 2) && AllDigits(t.value.0)
                        && |t.value.1| <= 3 && AllDigits(t.value.1)
  {
    match SecondsLength(s, r)
    case None => None
    case Some(sl) =>
      var u := r + sl + 1;
      var v := u + DigitRun(s, u, 3);
      if !BitrateAt(s, v) then None else Some((s[r..r + sl], s[u..v]))
  }

  /** preg_match: the match at the leftmost position from `i` on. */
  function SearchFrom(s: string, i: nat): (r: Option<ProgressFields>)
    ensures r.Some? ==> WellFormed(r.value)
    decreases |s| - i
  {
    if i >= |s| then None
    else match MatchAt(s, i)
      case Some(f) => Some(f)
      case None => SearchFrom(s, i + 1)
  }

  /** PHP's conversion of a digit string to an integer; the empty string counts as 0. */
  function DigitsValue(s: string): nat
    requires AllDigits(s)
  {
    if s == [] then 0 else DigitsValue(s[..|s| - 1]) * 10 + (s[|s| - 1] as int - '0' as int)
  }

  /** The mark computed from the four field values. */
  function Mark(hours: nat, minutes: nat, seconds: nat, millisec: nat): nat {
    (hours * 3600 + minutes * 60 + seconds) * 1000 + millisec * 10
  }

  function FieldsMark(f: ProgressFields): nat
    requires WellFormed(f)
  {
    Mark(DigitsValue(f.hours), DigitsValue(f.minutes), DigitsValue(f.seconds), DigitsValue(f.millisec))
  }

  /** The progress mark of an output chunk, when the pattern matches somewhere in it. */
  function ProgressMark(buffer: string): Option<nat> {
    match SearchFrom(buffer, 0)
    case Some(f) => Some(FieldsMark(f))
    case None => None
  }

  /**
   * preg_match reports the match at the leftmost position from `i` on where
   * the pattern matches, and no match only when it matches nowhere from `i` on.
   */
  lemma {:induction false} SearchFromIsLeftmost(s: string, i: nat)
    ensures var r := SearchFrom(s, i);
            && (r.Some? ==> exists j: nat :: i <= j && MatchAt(s, j) == r && forall k :: i <= k < j ==> MatchAt(s, k).None?)
            && (r.None? ==> forall j: nat :: i <= j ==> MatchAt(s, j).None?)
    decreases |s| - i
  {
    var r := SearchFrom(s, i);
    if i >= |s| {
      forall j: nat | i <= j
        ensures MatchAt(s, j).None?
      {
        assert !OccursAt(s, "time=", j);
      }
    } else if MatchAt(s, i).Some? {
      assert MatchAt(s, i) == r;
    } else {
      SearchFromIsLeftmost(s, i + 1);
      assert r == SearchFrom(s, i + 1);
      if r.Some? {
        var j: nat :| i + 1 <= j && MatchAt(s, j) == r && forall k :: i + 1 <= k < j ==> MatchAt(s, k).None?;
        assert forall k :: i <= k < j ==> MatchAt(s, k).None?;
      }
    }
  }

  /** The mark is that of the leftmost match in the chunk, and there is none iff the pattern matches nowhere. */
  lemma ProgressMarkIsLeftmostMatch(buffer: string)
    ensures var r := ProgressMark(buffer);
            && (r.Some? ==> exists j: nat, f :: && MatchAt(buffer, j) == Some(f) && r == Some(FieldsMark(f))
                                               && forall k :: 0 <= k < j ==> MatchAt(buffer, k).None?)
            && (r.None? <==> forall j: nat :: MatchAt(buffer, j).None?)
  {
    SearchFromIsLeftmost(buffer, 0);
  }

  /** Where each group and separator stands in a rendered marker. */
  lemma RenderLayout(f: ProgressFields)
    requires WellFormed(f)
    ensures var t := Render(f);
            var hl, sl, fl := |f.hours|, |f.seconds|, |f.millisec|;
            var q := 5 + hl + 1;
            var u := q + 3 + sl + 1;
            && |t| == u + fl + 8
            && t[..5] == "time=" && t[5..5 + hl] == f.hours && t[5 + hl] == ':'
            && t[q..q + 2] == f.minutes && t[q + 2] == ':'
            && t[q + 3..q + 3 + sl] == f.seconds && t[q + 3 + sl] == '.'
            && t[u..u + fl] == f.millisec && t[u + fl] == ' ' && t[u + fl + 1..] == "bitrate"
  {
  }

  /** DigitRun stops exactly after a run of `n` digits that is capped or ends at a non-digit. */
  lemma {:induction false} DigitRunExact(s: string, u: nat, cap: nat, n: nat)
    requires n <= cap && u + n <= |s|
    requires forall k :: u <= k < u + n ==> IsDigit(s[k])
    requires n == cap || (u + n < |s| && !IsDigit(s[u + n]))
    ensures DigitRun(s, u, cap) == n
    decreases cap
  {
    if n > 0 {
      DigitRunExact(s, u + 1, cap - 1, n - 1);
    }
  }

  /** A slice of the middle part of a concatenation. */
  lemma MiddleSlice(pre: string, t: string, rest: string, a: nat, b: nat)
    requires a <= b <= |t|
    ensures (pre + t + rest)[|pre| + a..|pre| + b] == t[a..b]
  {
    var s := pre + t + rest;
    assert forall k :: 0 <= k < b - a ==> s[|pre| + a..|pre| + b][k] == t[a..b][k];
  }

  /** A character of the middle part of a concatenation. */
  lemma MiddleChar(pre: string, t: string, rest: string, k: nat)
    requires k < |t|
    ensures (pre + t + rest)[|pre| + k] == t[k]
  {
  }

  lemma HoursLengthOf(s: string, p: nat, h: string)
    requires 1 <= |h| <= 2 && AllDigits(h)
    requires p + |h| < |s| && s[p..p + |h|] == h && s[p + |h|] == ':'
    ensures HoursLength(s, p) == |h|
  {
    assert s[p] == h[0];
    if |h| == 2 {
      assert s[p + 1] == h[1];
    }
  }

  lemma MinutesAtOf(s: string, q: nat, m: string)
    requires |m| == 2 && AllDigits(m)
    requires q + 2 < |s| && s[q..q + 2] == m && s[q + 2] == ':'
    ensures MinutesAt(s, q)
  {
    assert s[q] == m[0] && s[q + 1] == m[1];
  }

  lemma SecondsLengthOf(s: string, r: nat, sec: string)
    requires (|sec| == 0 || |sec| == 2) && AllDigits(sec)
    requires r + |sec| < |s| && s[r..r + |sec|] == sec && s[r + |sec|] == '.'
    ensures SecondsLength(s, r) == Some(|sec|)
  {
    if |sec| == 2 {
      assert s[r] == sec[0] && s[r + 1] == sec[1];
    }
  }

  lemma DigitRunOf(s: string, u: nat, ms: string)
    requires |ms| <= 3 && AllDigits(ms)
    requires u + |ms| < |s| && s[u..u + |ms|] == ms && IsSpace(s[u + |ms|])
    ensures DigitRun(s, u, 3) == |ms|
  {
    assert forall k :: u <= k < u + |ms| ==> s[k] == ms[k - u];
    DigitRunExact(s, u, 3, |ms|);
  }

  /** The text at `r` spells out the seconds, the dot, the fraction, a whitespace character and `bitrate`. */
  predicate TailLaidOut(s: string, r: nat, sec: string, ms: string) {
    var u := r + |sec| + 1;
    var v := u + |ms|;
    && v + 8 <= |s|
    && s[r..r + |sec|] == sec && s[r + |sec|] == '.'
    && s[u..v] == ms && IsSpace(s[v]) && s[v + 1..v + 8] == "bitrate"
  }

  /** The text at `p` spells out the hours, the minutes and the tail of `f` with the pattern's separators. */
  predicate ClockLaidOut(s: string, p: nat, f: ProgressFields) {
    var q := p + |f.hours| + 1;
    && q + 3 <= |s|
    && s[p..p + |f.hours|] == f.hours && s[p + |f.hours|] == ':'
    && s[q..q + 2] == f.minutes && s[q + 2] == ':'
    && TailLaidOut(s, q + 3, f.seconds, f.millisec)
  }

  /** The text at `i` is `time=` followed by the groups of `f` with the pattern's separators. */
  predicate LaidOut(s: string, i: nat, f: ProgressFields) {
    && i + 5 <= |s| && s[i..i + 5] == "time="
    && ClockLaidOut(s, i + 5, f)
  }

  /** The tail match is assembled from its stages. */
  lemma MatchTailOf(s: string, r: nat, sec: string, ms: string)
    requires TailLaidOut(s, r, sec, ms)
    requires SecondsLength(s, r) == Some(|sec|)
    requires DigitRun(s, r + |sec| + 1, 3) == |ms|
    requires BitrateAt(s, r + |sec| + 1 + |ms|)
    ensures MatchTail(s, r) == Some((sec, ms))
  {
  }

  lemma MatchTailLaidOut(s: string, r: nat, sec: string, ms: string)
    requires (|sec| == 0 || |sec| == 2) && AllDigits(sec) && |ms| <= 3 && AllDigits(ms)
    requires TailLaidOut(s, r, sec, ms)
    ensures MatchTail(s, r) == Some((sec, ms))
  {
    SecondsLengthOf(s, r, sec);
    DigitRunOf(s, r + |sec| + 1, ms);
    MatchTailOf(s, r, sec, ms);
  }

  lemma MatchClockLaidOut(s: string, i: nat, f: ProgressFields)
    requires WellFormed(f) && LaidOut(s, i, f)
    ensures MatchClock(s, i + 5) == Some(f)
  {
    var p := i + 5;
    var q := p + |f.hours| + 1;
    HoursLengthOf(s, p, f.hours);
    MinutesAtOf(s, q, f.minutes);
    MatchTailLaidOut(s, q + 3, f.seconds, f.millisec);
  }

  /** The matcher recovers the fields from their layout. */
  lemma MatchAtLaidOut(s: string, i: nat, f: ProgressFields)
    requires WellFormed(f) && LaidOut(s, i, f)
    ensures MatchAt(s, i) == Some(f)
  {
    assert OccursAt(s, "time=", i);
    MatchClockLaidOut(s, i, f);
  }

  /** What the tail stage matched is spelled out in the text. */
  lemma MatchTailIsLaidOut(s: string, r: nat)
    ensures var t := MatchTail(s, r);
            t.Some? ==> TailLaidOut(s, r, t.value.0, t.value.1)
  {
  }

  lemma MatchClockIsLaidOut(s: string, p: nat)
    ensures var m := MatchClock(s, p);
            m.Some? ==> ClockLaidOut(s, p, m.value)
  {
    var m := MatchClock(s, p);
    if m.Some? {
      var hl := HoursLength(s, p);
      var q := p + hl + 1;
      var t := MatchTail(s, q + 3);
      MatchTailIsLaidOut(s, q + 3);
      assert m.value == ProgressFields(s[p..p + hl], s[q..q + 2], t.value.0, t.value.1);
    }
  }

  /**
   * A match at `i` consists of the text at `i`: `time=`, the groups it
   * returns with the pattern's separators, a whitespace and `bitrate`.
   * With MatchAtLaidOut, the matcher succeeds at `i` with `f` iff `f` is
   * well formed and spelled out at `i`.
   */
  lemma MatchIsLaidOut(s: string, i: nat)
    ensures var m := MatchAt(s, i);
            m.Some? ==> LaidOut(s, i, m.value)
  {
    MatchClockIsLaidOut(s, i + 5);
  }

  /** A rendered marker is laid out wherever it stands. */
  lemma RenderIsLaidOut(pre: string, f: ProgressFields, rest: string)
    requires WellFormed(f)
    ensures LaidOut(pre + Render(f) + rest, |pre|, f)
  {
    var t := Render(f);
    var i := |pre|;
    RenderLayout(f);
    var hl, sl, fl := |f.hours|, |f.seconds|, |f.millisec|;
    var q := 5 + hl + 1;
    var u := q + 3 + sl + 1;
    var v := u + fl;
    MiddleSlice(pre, t, rest, 0, 5);
    MiddleSlice(pre, t, rest, 5, 5 + hl);
    MiddleChar(pre, t, rest, 5 + hl);
    MiddleSlice(pre, t, rest, q, q + 2);
    MiddleChar(pre, t, rest, q + 2);
    MiddleSlice(pre, t, rest, q + 3, q + 3 + sl);
    MiddleChar(pre, t, rest, q + 3 + sl);
    MiddleSlice(pre, t, rest, u, v);
    MiddleChar(pre, t, rest, v);
    MiddleSlice(pre, t, rest, v + 1, v + 8);
  }

  /** Every well-formed set of fields is matched back from its rendering, wherever it stands. */
  lemma MatchAtRender(pre: string, f: ProgressFields, rest: string)
    requires WellFormed(f)
    ensures MatchAt(pre + Render(f) + rest, |pre|) == Some(f)
  {
    RenderIsLaidOut(pre, f, rest);
    MatchAtLaidOut(pre + Render(f) + rest, |pre|, f);
  }

  /** No match can start where the line has no `time=`. */
  lemma NoMarkerNoMatch(line: string, rest: string, j: nat)
    requires j + 5 <= |line| && !OccursAt(line, "time=", j)
    ensures MatchAt(line + rest, j).None?
  {
    assert line[j..j + 5] == (line + rest)[j..j + 5];
  }

  /** The search moves past a position where the pattern does not match. */
  lemma SearchSkips(s: string, j: nat)
    requires j < |s| && MatchAt(s, j).None?
    ensures SearchFrom(s, j) == SearchFrom(s, j + 1)
  {
  }

  /**
   * When the first `time=` of a line is the start of a well-formed marker,
   * the marker is what preg_match finds.
   */
  lemma {:induction false} FirstMarkerIsFound(pre: string, f: ProgressFields, rest: string)
    requires WellFormed(f)
    requires Strpos(pre + Render(f), "time=") == Some(|pre|)
    ensures SearchFrom(pre + Render(f) + rest, 0) == Some(f)
  {
    var s := pre + Render(f) + rest;
    var line := pre + Render(f);
    MatchAtRender(pre, f, rest);
    var j := |pre|;
    while j > 0
      invariant 0 <= j <= |pre|
      invariant SearchFrom(s, j) == Some(f)
    {
      j := j - 1;
      NoMarkerNoMatch(line, rest, j);
      SearchSkips(s, j);
    }
  }

  /** Such a line yields the mark of its first marker, whatever follows it. */
  lemma ProgressMarkOfMarker(pre: string, f: ProgressFields, rest: string)
    requires WellFormed(f)
    requires Strpos(pre + Render(f), "time=") == Some(|pre|)
    ensures ProgressMark(pre + Render(f) + rest) == Some(FieldsMark(f))
  {
    FirstMarkerIsFound(pre, f, rest);
  }

  /** A two-digit fraction is centiseconds, so the mark is the elapsed time in milliseconds. */
  lemma TwoDigitFractionIsMillis(f: ProgressFields)
    requires WellFormed(f) && |f.millisec| == 2
    ensures var ms := f.millisec + "0";
            AllDigits(ms) && FieldsMark(f) == ((DigitsValue(f.hours) * 60 + DigitsValue(f.minutes)) * 60
                                               + DigitsValue(f.seconds)) * 1000 + DigitsValue(ms)
  {
    var ms := f.millisec + "0";
    assert ms[..|ms| - 1] == f.millisec;
  }

  /** The mark grows with each field. */
  lemma MarkMonotone(h: nat, m: nat, s: nat, c: nat, h': nat, m': nat, s': nat, c': nat)
    requires h <= h' && m <= m' && s <= s' && c <= c'
    ensures Mark(h, m, s, c) <= Mark(h', m', s', c')
  {
  }

  /**
   * For ffmpeg's own ranges (minutes and seconds below 60, two fraction
   * digits) a later time stamp always yields a larger mark.
   */
  lemma MarkOrdersTimestamps(h: nat, m: nat, s: nat, c: nat, h': nat, m': nat, s': nat, c': nat)
    requires m < 60 && s < 60 && c < 100 && m' < 60 && s' < 60 && c' < 100
    requires h < h' || (h == h' && (m < m' || (m == m' && (s < s' || (s == s' && c < c')))))
    ensures Mark(h, m, s, c) < Mark(h', m', s', c')
  {
  }
}
