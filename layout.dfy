/**
 * The plain-text layout helpers of the console front end: display width of
 * a text where wide characters take two cells, right padding, the column
 * widths of the two plain tables, the performance emoji and the per-student
 * lesson counts.
 */
module Layout {
  import opened Numbers
  import opened Rows
  import opened Store

  /**
   * An approximation of East Asian width "W" or "F" by a fixed table: the
   * Hangul Jamo, the CJK and Yi blocks, Hangul syllables, compatibility
   * ideographs and forms, the fullwidth forms, and the block of pictographs
   * and emoji the front end prints. A few characters are classed otherwise
   * than by `unicodedata` (U+1F321 counts as wide, U+2705 and U+2B50 do not).
   */
  predicate IsWide(c: char)
  {
    var n := c as int;
    || 0x1100 <= n <= 0x115F
    || 0x2E80 <= n <= 0x303E
    || 0x3041 <= n <= 0x33FF
    || 0x3400 <= n <= 0x4DBF
    || 0x4E00 <= n <= 0x9FFF
    || 0xA000 <= n <= 0xA4CF
    || 0xAC00 <= n <= 0xD7A3
    || 0xF900 <= n <= 0xFAFF
    || 0xFE30 <= n <= 0xFE4F
    || 0xFF01 <= n <= 0xFF60
    || 0xFFE0 <= n <= 0xFFE6
    || 0x1F300 <= n <= 0x1F64F
    || 0x1F900 <= n <= 0x1F9FF
    || 0x20000 <= n <= 0x2FFFD
    || 0x30000 <= n <= 0x3FFFD
  }

  /** The cells one character takes on screen. */
  function CharWidth(c: char): nat
  {
    if IsWide(c) then 2 else 1
  }

  /** The display width of a text: the sum of its characters' widths. */
  function Width(s: string): nat
    decreases |s|
  {
    if s == [] then 0 else Width(s[..|s| - 1]) + CharWidth(s[|s| - 1])
  }

  /** A text is at least as wide as it is long and at most twice that. */
  lemma {:induction false} WidthBounds(s: string)
    ensures |s| <= Width(s) <= 2 * |s|
    decreases |s|
  {
    if s != [] {
      WidthBounds(s[..|s| - 1]);
    }
  }

  /** Widths add up over concatenation. */
  lemma {:induction false} WidthAppend(a: string, b: string)
    ensures Width(a + b) == Width(a) + Width(b)
    decreases |b|
  {
    if b == [] {
      assert a + b == a;
    } else {
      var n := |b| - 1;
      assert (a + b)[..|a| + n] == a + b[..n];
      assert (a + b)[|a| + n] == b[n];
      WidthAppend(a, b[..n]);
    }
  }

  /** `_visual_len`: counts two for each wide character and one for any other. */
  method VisualLen(s: string) returns (l: nat)
    ensures l == Width(s)
    ensures |s| <= l <= 2 * |s|
  {
    l := 0;
    var i := 0;
    while i < |s|
      invariant 0 <= i <= |s|
      invariant l == Width(s[..i])
    {
      assert s[..i + 1][..i] == s[..i];
      l := l + (if IsWide(s[i]) then 2 else 1);
      i := i + 1;
    }
    assert s[..i] == s;
    WidthBounds(s);
  }

  /** `n` spaces. */
  function Spaces(n: nat): (r: string)
    ensures |r| == n && forall k :: 0 <= k < n ==> r[k] == ' '
  {
    seq(n, _ => ' ')
  }

  /** Spaces are narrow: `n` spaces are `n` cells wide. */
  lemma {:induction false} SpacesWidth(n: nat)
    ensures Width(Spaces(n)) == n
    decreases n
  {
    if n > 0 {
      assert Spaces(n)[..n - 1] == Spaces(n - 1);
      SpacesWidth(n - 1);
    }
  }

  /**
   * `_pad_right`: the text followed by as many spaces as it is narrower than
   * the width. The text is kept as a prefix, a text already that wide is
   * returned unchanged, and the result is exactly as wide as the larger of
   * the two.
   */
  function PadRight(s: string, w: int): (r: string)
    ensures s <= r
    ensures |r| == |s| + (if w > Width(s) then w - Width(s) else 0)
    ensures forall k :: |s| <= k < |r| ==> r[k] == ' '
    ensures w <= Width(s) ==> r == s
    ensures Width(r) == if w > Width(s) then w else Width(s)
  {
    var n := if w > Width(s) then w - Width(s) else 0;
    WidthAppend(s, Spaces(n));
    SpacesWidth(n);
    s + Spaces(n)
  }

  // ----- Performance emoji -----

  const Star := "\U{1F31F}"
  const ThumbsUp := "\U{1F44D}"
  const Neutral := "\U{1F610}"
  const Muscle := "\U{1F4AA}"

  /** `get_performance_emoji`: one emoji per band of scores. */
  function PerformanceEmoji(score: int): string
  {
    if score >= 9 then Star
    else if score >= 7 then ThumbsUp
    else if score >= 5 then Neutral
    else Muscle
  }

  /** The place of an emoji from the lowest band to the highest. */
  function EmojiRank(e: string): int
  {
    if e == Muscle then 0 else if e == Neutral then 1 else if e == ThumbsUp then 2 else if e == Star then 3 else -1
  }

  /** Every score lands in exactly one band: 9 and up, 7 to 8, 5 to 6, or below 5. */
  lemma EmojiBands(score: int)
    ensures PerformanceEmoji(score) == Star <==> score >= 9
    ensures PerformanceEmoji(score) == ThumbsUp <==> 7 <= score <= 8
    ensures PerformanceEmoji(score) == Neutral <==> 5 <= score <= 6
    ensures PerformanceEmoji(score) == Muscle <==> score < 5
  {
    assert Star[0] != ThumbsUp[0] && Star[0] != Neutral[0] && Star[0] != Muscle[0];
    assert ThumbsUp[0] != Neutral[0] && ThumbsUp[0] != Muscle[0] && Neutral[0] != Muscle[0];
  }

  /** A higher score never gets a lower band. */
  lemma EmojiMonotone(a: int, b: int)
    requires a <= b
    ensures 0 <= EmojiRank(PerformanceEmoji(a)) <= EmojiRank(PerformanceEmoji(b))
  {
    EmojiBands(a);
    EmojiBands(b);
  }

  // ----- Column widths -----

  /** A table line: one text per column. */
  predicate HasColumns(line: seq<string>, n: nat)
  {
    |line| == n
  }

  /** The widest of the header's and every line's text in column `c`. */
  function ColumnMax(headers: seq<string>, lines: seq<seq<string>>, c: nat): nat
    requires c < |headers| && forall i :: 0 <= i < |lines| ==> HasColumns(lines[i], |headers|)
    decreases |lines|
  {
    if lines == [] then Width(headers[c])
    else
      var last := lines[|lines| - 1];
      assert HasColumns(last, |headers|);
      var rest := ColumnMax(headers, lines[..|lines| - 1], c);
      var w := Width(last[c]);
      if w > rest then w else rest
  }

  /** The column maximum is at least every text of the column and equals one of them. */
  lemma {:induction false} ColumnMaxIsMaximum(headers: seq<string>, lines: seq<seq<string>>, c: nat)
    requires c < |headers| && forall i :: 0 <= i < |lines| ==> HasColumns(lines[i], |headers|)
    ensures ColumnMax(headers, lines, c) >= Width(headers[c])
    ensures forall i :: 0 <= i < |lines| ==> ColumnMax(headers, lines, c) >= Width(lines[i][c])
    ensures ColumnMax(headers, lines, c) == Width(headers[c])
      || exists i :: 0 <= i < |lines| && ColumnMax(headers, lines, c) == Width(lines[i][c])
    decreases |lines|
  {
    if lines != [] {
      var n := |lines| - 1;
      ColumnMaxIsMaximum(headers, lines[..n], c);
      forall i | 0 <= i < n
        ensures lines[..n][i] == lines[i]
      {
      }
    }
  }

  /**
   * The width loops of the plain tables: start from zero, widen each column
   * to its header, then to every line's text.
   */
  method ColumnWidths(headers: seq<string>, lines: seq<seq<string>>) returns (widths: seq<nat>)
    requires forall i :: 0 <= i < |lines| ==> HasColumns(lines[i], |headers|)
    ensures |widths| == |headers|
    ensures forall c :: 0 <= c < |headers| ==> widths[c] == ColumnMax(headers, lines, c)
  {
    var w := new nat[|headers|](_ => 0);
    for c := 0 to |headers|
      invariant forall k :: 0 <= k < c ==> w[k] == Width(headers[k])
      invariant forall k :: c <= k < |headers| ==> w[k] == 0
    {
      var l := VisualLen(headers[c]);
      w[c] := if w[c] > l then w[c] else l;
    }
    for i := 0 to |lines|
      invariant forall k :: 0 <= k < |headers| ==> w[k] == ColumnMax(headers, lines[..i], k)
    {
      assert lines[..i + 1][..i] == lines[..i];
      for c := 0 to |headers|
        invariant forall k :: 0 <= k < c ==> w[k] == ColumnMax(headers, lines[..i + 1], k)
        invariant forall k :: c <= k < |headers| ==> w[k] == ColumnMax(headers, lines[..i], k)
      {
        var l := VisualLen(lines[i][c]);
        w[c] := if w[c] > l then w[c] else l;
      }
    }
    assert lines[..|lines|] == lines;
    widths := w[..];
  }

  const StudentHeaders: seq<string> := ["No.", "Student Name", "Student ID", "Lessons"]
  const MonthlyHeaders: seq<string> := ["Month", "Lessons", "Total Hours", "Total Income ($)"]

  /** The lines of the students table: position from 1, name, id and lesson count. */
  function StudentLines(nameIds: seq<(string, string)>, counts: map<string, nat>): (lines: seq<seq<string>>)
    ensures |lines| == |nameIds|
    ensures forall i :: 0 <= i < |lines| ==> HasColumns(lines[i], 4)
  {
    seq(|nameIds|, i requires 0 <= i < |nameIds| =>
      [IntToString(i + 1), nameIds[i].0, nameIds[i].1, IntToString(CountOr(counts, nameIds[i].0)) + " lessons"])
  }

  /** The lines of the monthly table: month, lessons, hours and income with two decimals. */
  function MonthlyLines(summary: seq<(string, MonthSummary)>): (lines: seq<seq<string>>)
    ensures |lines| == |summary|
    ensures forall i :: 0 <= i < |lines| ==> HasColumns(lines[i], 4)
  {
    seq(|summary|, i requires 0 <= i < |summary| =>
      var (m, s) := summary[i];
      [m, IntToString(s.lessons), FormatFixed2(s.hours), FormatFixed2(s.income)])
  }

  /** The column widths of the students table, each the widest text of its column. */
  method StudentTableWidths(nameIds: seq<(string, string)>, counts: map<string, nat>) returns (widths: seq<nat>)
    ensures |widths| == 4
    ensures forall c :: 0 <= c < 4 ==> widths[c] == ColumnMax(StudentHeaders, StudentLines(nameIds, counts), c)
  {
    widths := ColumnWidths(StudentHeaders, StudentLines(nameIds, counts));
  }

  /** The column widths of the monthly table, each the widest text of its column. */
  method MonthlyTableWidths(summary: seq<(string, MonthSummary)>) returns (widths: seq<nat>)
    ensures |widths| == 4
    ensures forall c :: 0 <= c < 4 ==> widths[c] == ColumnMax(MonthlyHeaders, MonthlyLines(summary), c)
  {
    widths := ColumnWidths(MonthlyHeaders, MonthlyLines(summary));
  }

  // ----- Lesson counts -----

  /** `counts.get(name, 0)`. */
  function CountOr(counts: map<string, nat>, name: string): nat
  {
    if name in counts then counts[name] else 0
  }

  /** The number of records carrying the name. */
  function CountNamed(records: seq<StoredRecord>, name: string): (n: nat)
    ensures n <= |records|
    decreases |records|
  {
    if records == [] then 0
    else CountNamed(records[..|records| - 1], name) + (if records[|records| - 1].record.studentName == name then 1 else 0)
  }

  /** A name is counted exactly when some record carries it. */
  lemma {:induction false} CountNamedPositive(records: seq<StoredRecord>, name: string)
    ensures CountNamed(records, name) > 0 <==> exists k :: 0 <= k < |records| && records[k].record.studentName == name
    decreases |records|
  {
    if records != [] {
      var n := |records| - 1;
      CountNamedPositive(records[..n], name);
      if exists k :: 0 <= k < |records| && records[k].record.studentName == name {
        var k :| 0 <= k < |records| && records[k].record.studentName == name;
        if k < n {
          assert records[..n][k] == records[k];
        }
      }
      if exists k :: 0 <= k < n && records[..n][k].record.studentName == name {
        var k :| 0 <= k < n && records[..n][k].record.studentName == name;
        assert records[k] == records[..n][k];
      }
    }
  }

  /**
   * The lesson-count loop of `show_all_students`: each name maps to the
   * number of records carrying it, and a name in no record counts 0.
   */
  method LessonCounts(records: seq<StoredRecord>) returns (counts: map<string, nat>)
    ensures forall name :: CountOr(counts, name) == CountNamed(records, name)
    ensures forall name :: name in counts ==> counts[name] > 0
  {
    counts := map[];
    var i := 0;
    while i < |records|
      invariant 0 <= i <= |records|
      invariant forall name :: CountOr(counts, name) == CountNamed(records[..i], name)
      invariant forall name :: name in counts ==> counts[name] > 0
    {
      assert records[..i + 1][..i] == records[..i];
      var name := records[i].record.studentName;
      counts := counts[name := CountOr(counts, name) + 1];
      i := i + 1;
    }
    assert records[..i] == records;
  }
}
