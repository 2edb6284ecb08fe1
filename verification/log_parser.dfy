/**
 * The log-line recogniser of the monitor: the one regular expression
 *
 *   (?P<date>\d{4}/\d{2}/\d{2}) (?P<time>\d{2}:\d{2}:\d{2}\.\d+) \[(?P<category>[^\]]+)\] (?P<message>.*)
 *
 * applied with an anchored match at position 0 of a line, written out by hand
 * over `seq<char>`.  `Parse` is the recogniser; `Matches` states the grammar
 * declaratively, and the lemmas at the end prove that the two agree.
 */
module LogParser {
  import opened Wrappers

  /** One structured log record, with the four named groups of the pattern. */
  datatype LogRecord = LogRecord(date: string, time: string, category: string, message: string)

  // ---------------------------------------------------------------------------
  // The grammar, stated declaratively
  // ---------------------------------------------------------------------------

  /** `\d`, restricted to the ASCII digits. */
  predicate IsDigit(c: char) {
    '0' <= c <= '9'
  }

  predicate AllDigits(s: string) {
    forall i :: 0 <= i < |s| ==> IsDigit(s[i])
  }

  /** `\d{4}/\d{2}/\d{2}` */
  predicate IsDate(s: string) {
    |s| == 10 && AllDigits(s[..4]) && s[4] == '/' && AllDigits(s[5..7]) && s[7] == '/' && AllDigits(s[8..])
  }

  /** `\d{2}:\d{2}:\d{2}\.` — the fixed-width head of the time group. */
  predicate IsTimeHead(s: string) {
    |s| == 9 && AllDigits(s[..2]) && s[2] == ':' && AllDigits(s[3..5]) && s[5] == ':' && AllDigits(s[6..8]) && s[8] == '.'
  }

  /** `\d{2}:\d{2}:\d{2}\.\d+` */
  predicate IsTime(s: string) {
    |s| >= 10 && IsTimeHead(s[..9]) && AllDigits(s[9..])
  }

  /** `[^\]]+` */
  predicate IsCategory(s: string) {
    |s| > 0 && ']' !in s
  }

  /** `.*` — Python's `.` matches every character except a newline. */
  predicate IsMessage(s: string) {
    '\n' !in s
  }

  predicate WellFormed(r: LogRecord) {
    IsDate(r.date) && IsTime(r.time) && IsCategory(r.category) && IsMessage(r.message)
  }

  /** The text a record is read from: the four groups with the pattern's separators. */
  function Format(r: LogRecord): string {
    r.date + " " + r.time + " [" + r.category + "] " + r.message
  }

  /**
   * The pattern matches at the start of `line` with exactly the groups of `r`:
   * the line begins with `Format(r)`, and the greedy `.*` stops only at the end
   * of the line or at a newline.
   */
  predicate Matches(line: string, r: LogRecord) {
    var f := Format(r);
    WellFormed(r) && |f| <= |line| && line[..|f|] == f && (|f| == |line| || line[|f|] == '\n')
  }

  // ---------------------------------------------------------------------------
  // The recogniser
  // ---------------------------------------------------------------------------

  /** The length of the run of digits that starts at position `i` of `s` (the greedy `\d+`, or zero). */
  function DigitRun(s: string, i: nat): (n: nat)
    requires i <= |s|
    ensures i + n <= |s|
    ensures forall k :: i <= k < i + n ==> IsDigit(s[k])
    ensures i + n == |s| || !IsDigit(s[i + n])
    decreases |s| - i
  {
    if i == |s| || !IsDigit(s[i]) then 0 else 1 + DigitRun(s, i + 1)
  }

  /** The position of the first `c` at or after position `i` of `s`, if any. */
  function FindFrom(s: string, c: char, i: nat): (r: Option<nat>)
    requires i <= |s|
    ensures r.Some? ==> i <= r.value < |s| && s[r.value] == c
    ensures r.Some? ==> forall k :: i <= k < r.value ==> s[k] != c
    ensures r.None? ==> forall k :: i <= k < |s| ==> s[k] != c
    decreases |s| - i
  {
    if i == |s| then None
    else if s[i] == c then Some(i)
    else FindFrom(s, c, i + 1)
  }

  /** What `.*` consumes of `s`: everything up to the first newline. */
  function RestOfLine(s: string): (m: string)
    ensures |m| <= |s| && m == s[..|m|]
    ensures IsMessage(m)
    ensures |m| == |s| || s[|m|] == '\n'
  {
    match FindFrom(s, '\n', 0)
    case None => s
    case Some(j) => s[..j]
  }

  /**
   * The anchored match of the log pattern against `line`.  The fractional
   * seconds end at the first non-digit and the category at the first `]`;
   * backtracking cannot shorten either, because what follows them must be a
   * space and a `]` respectively.
   */
  function Parse(line: string): (r: Option<LogRecord>)
    ensures r.Some? ==> |line| >= 20 && |r.value.date| == 10 && line[..10] == r.value.date
    ensures r.Some? ==> |r.value.time| >= 10 && |r.value.category| > 0
  {
    if |line| < 20 || !IsDate(line[..10]) || line[10] != ' ' || !IsTimeHead(line[11..20]) then None
    else ParseAfterTime(line, 20 + DigitRun(line, 20))
  }

  /** The rest of the match once the time group is known to end at `fracEnd`. */
  function ParseAfterTime(line: string, fracEnd: nat): Option<LogRecord>
    requires 20 <= fracEnd <= |line|
  {
    if fracEnd == 20 || fracEnd + 2 > |line| || line[fracEnd] != ' ' || line[fracEnd + 1] != '[' then None
    else ParseAfterCategory(line, fracEnd, FindFrom(line, ']', fracEnd + 2))
  }

  /** The rest of the match once the category is known to be closed at `close`, if anywhere. */
  function ParseAfterCategory(line: string, fracEnd: nat, close: Option<nat>): Option<LogRecord>
    requires 20 <= fracEnd && fracEnd + 2 <= |line|
    requires close.Some? ==> fracEnd + 2 <= close.value < |line|
  {
    match close
    case None => None
    case Some(c) =>
      if c == fracEnd + 2 || c + 1 == |line| || line[c + 1] != ' ' then None
      else Some(LogRecord(line[..10], line[11..fracEnd], line[fracEnd + 2..c], RestOfLine(line[c + 2..])))
  }

  // ---------------------------------------------------------------------------
  // The recogniser agrees with the grammar
  // ---------------------------------------------------------------------------

  /**
   * `line` holds the groups of `r` at the places the pattern puts them: the
   * date in 0..10, the time from 11, the category between the `[` and the `]`
   * that follow it, and the message after `] `, up to the end of the line or a
   * newline.
   */
  predicate LaidOut(line: string, r: LogRecord) {
    var t, c := |r.time|, |r.category|;
    var close := 13 + t + c;
    var rest := if close + 2 <= |line| then line[close + 2..] else [];
    |r.date| == 10 && close + 2 <= |line| &&
    line[..10] == r.date && line[10] == ' ' &&
    line[11..11 + t] == r.time && line[11 + t] == ' ' && line[12 + t] == '[' &&
    line[13 + t..close] == r.category && line[close] == ']' && line[close + 1] == ' ' &&
    |r.message| <= |rest| && rest[..|r.message|] == r.message &&
    (|r.message| == |rest| || rest[|r.message|] == '\n')
  }

  /** Reading a line as `Format(r)` followed by a newline or nothing is the same as finding the groups of `r` in place. */
  lemma LaidOutIffFormatted(line: string, r: LogRecord)
    requires |r.date| == 10
    ensures LaidOut(line, r) <==>
      (|Format(r)| <= |line| && line[..|Format(r)|] == Format(r) &&
       (|Format(r)| == |line| || line[|Format(r)|] == '\n'))
  {
    if LaidOut(line, r) {
      LaidOutToFormatted(line, r);
    }
    if |Format(r)| <= |line| && line[..|Format(r)|] == Format(r) {
      FormattedToLaidOut(line, r);
    }
  }

  /** Where each character of `Format(r)` before the message comes from. */
  lemma FormatAt(r: LogRecord)
    requires |r.date| == 10
    ensures var f, t, c := Format(r), |r.time|, |r.category|;
      |f| == 15 + t + c + |r.message| &&
      (forall k :: 0 <= k < 10 ==> f[k] == r.date[k]) && f[10] == ' ' &&
      (forall k :: 0 <= k < t ==> f[11 + k] == r.time[k]) && f[11 + t] == ' ' && f[12 + t] == '[' &&
      (forall k :: 0 <= k < c ==> f[13 + t + k] == r.category[k]) && f[13 + t + c] == ']' && f[14 + t + c] == ' ' &&
      f[15 + t + c..] == r.message
  {
    var head := r.date + " " + r.time + " [" + r.category + "] ";
    assert Format(r) == head + r.message;
  }

  lemma LaidOutToFormatted(line: string, r: LogRecord)
    requires LaidOut(line, r)
    ensures |Format(r)| <= |line| && line[..|Format(r)|] == Format(r)
    ensures |Format(r)| == |line| || line[|Format(r)|] == '\n'
  {
    var f, t, c := Format(r), |r.time|, |r.category|;
    var close := 13 + t + c;
    FormatAt(r);
    var rest := line[close + 2..];
    forall k | 0 <= k < |f| ensures line[k] == f[k] {
      if k < 10 {
        assert line[k] == line[..10][k];
      } else if 11 <= k < 11 + t {
        assert line[k] == line[11..11 + t][k - 11];
      } else if 13 + t <= k < close {
        assert line[k] == line[13 + t..close][k - 13 - t];
      } else if close + 2 <= k {
        assert line[k] == rest[..|r.message|][k - close - 2];
        assert f[k] == f[close + 2..][k - close - 2];
      }
    }
    assert line[..|f|] == f;
  }

  lemma FormattedToLaidOut(line: string, r: LogRecord)
    requires |r.date| == 10
    requires |Format(r)| <= |line| && line[..|Format(r)|] == Format(r)
    ensures |Format(r)| == |line| || line[|Format(r)|] == '\n' ==> LaidOut(line, r)
  {
    var f, t, c := Format(r), |r.time|, |r.category|;
    var close := 13 + t + c;
    FormatAt(r);
    forall k | 0 <= k < |f| ensures line[k] == f[k] {
      assert line[k] == line[..|f|][k];
    }
    assert line[..10] == r.date;
    assert line[11..11 + t] == r.time;
    assert line[13 + t..close] == r.category;
    var rest := line[close + 2..];
    forall k | 0 <= k < |r.message| ensures rest[k] == r.message[k] {
      assert rest[k] == line[close + 2 + k];
      assert f[close + 2 + k] == f[close + 2..][k];
    }
    assert rest[..|r.message|] == r.message;
  }

  /** `DigitRun` is the only run length of its kind: it is pinned down by where the digits stop. */
  lemma {:induction false} DigitRunExact(s: string, i: nat, n: nat)
    requires i + n <= |s|
    requires forall k :: i <= k < i + n ==> IsDigit(s[k])
    requires i + n == |s| || !IsDigit(s[i + n])
    ensures DigitRun(s, i) == n
    decreases n
  {
    if n > 0 {
      DigitRunExact(s, i + 1, n - 1);
    }
  }

  /** `FindFrom` returns the first occurrence and no other. */
  lemma {:induction false} FindFromExact(s: string, c: char, i: nat, j: nat)
    requires i <= j < |s| && s[j] == c
    requires forall k :: i <= k < j ==> s[k] != c
    ensures FindFrom(s, c, i) == Some(j)
    decreases j - i
  {
    if i < j {
      FindFromExact(s, c, i + 1, j);
    }
  }

  /** `.*` consumes exactly the newline-free prefix that ends at a newline or at the end. */
  lemma RestOfLineExact(s: string, m: string)
    requires |m| <= |s| && s[..|m|] == m && IsMessage(m)
    requires |m| == |s| || s[|m|] == '\n'
    ensures RestOfLine(s) == m
  {
    forall k | 0 <= k < |m| ensures s[k] != '\n' {
      assert s[k] == m[k];
    }
  }

  /**
   * Soundness: a record the recogniser returns satisfies every part of the
   * grammar, and the line begins with its formatted text.  In particular the
   * date has 10 characters, the time at least 10 with its only `.` at
   * position 8, and the category is non-empty, free of `]`, and closed by the
   * first `]` after the `[`.
   */
  lemma ParseSound(line: string)
    requires Parse(line).Some?
    ensures Matches(line, Parse(line).value)
    ensures var r := Parse(line).value;
      |r.date| == 10 && |r.time| >= 10 && r.time[8] == '.' &&
      (forall k :: 0 <= k < |r.time| && k != 8 ==> r.time[k] != '.')
  {
    var r := Parse(line).value;
    var fracEnd := 20 + DigitRun(line, 20);
    var close := FindFrom(line, ']', fracEnd + 2).value;
    assert r == LogRecord(line[..10], line[11..fracEnd], line[fracEnd + 2..close], RestOfLine(line[close + 2..]));
    SoundParts(line, fracEnd, close, r);
    LaidOutIffFormatted(line, r);
    TimeHasOneDot(r.time);
  }

  /** The groups the recogniser cuts out of the line satisfy the grammar and sit where `LaidOut` says. */
  lemma SoundParts(line: string, fracEnd: nat, close: nat, r: LogRecord)
    requires 20 < fracEnd < close && close + 1 < |line|
    requires IsDate(line[..10]) && line[10] == ' ' && IsTimeHead(line[11..20])
    requires forall k :: 20 <= k < fracEnd ==> IsDigit(line[k])
    requires line[fracEnd] == ' ' && line[fracEnd + 1] == '['
    requires fracEnd + 2 < close && line[close] == ']' && line[close + 1] == ' '
    requires forall k :: fracEnd + 2 <= k < close ==> line[k] != ']'
    requires r == LogRecord(line[..10], line[11..fracEnd], line[fracEnd + 2..close], RestOfLine(line[close + 2..]))
    ensures WellFormed(r) && LaidOut(line, r)
  {
    assert r.time[..9] == line[11..20];
    forall k | 9 <= k < |r.time| ensures IsDigit(r.time[k]) {
      assert r.time[k] == line[11 + k];
    }
    assert AllDigits(r.time[9..]) by {
      forall k | 0 <= k < |r.time| - 9 ensures IsDigit(r.time[9..][k]) {
        assert r.time[9..][k] == r.time[9 + k];
      }
    }
    forall k | 0 <= k < |r.category| ensures r.category[k] != ']' {
      assert r.category[k] == line[fracEnd + 2 + k];
    }
  }

  /** A time of the pattern's shape holds exactly one `.`, at position 8. */
  lemma TimeHasOneDot(time: string)
    requires IsTime(time)
    ensures time[8] == '.'
    ensures forall k :: 0 <= k < |time| && k != 8 ==> time[k] != '.'
  {
    assert time[8] == time[..9][8];
    forall k | 0 <= k < |time| && k != 8 ensures time[k] != '.' {
      if k < 9 {
        assert time[k] == time[..9][k];
        if k < 2 {
          assert time[..9][k] == time[..9][..2][k];
        } else if 3 <= k < 5 {
          assert time[..9][k] == time[..9][3..5][k - 3];
        } else if 6 <= k < 8 {
          assert time[..9][k] == time[..9][6..8][k - 6];
        }
      } else {
        assert time[k] == time[9..][k - 9];
      }
    }
  }

  /** Completeness: whenever the grammar matches a line, the recogniser returns exactly that record. */
  lemma ParseComplete(line: string, r: LogRecord)
    requires Matches(line, r)
    ensures Parse(line) == Some(r)
  {
    LaidOutIffFormatted(line, r);
    CompleteLaidOut(line, r);
  }

  /** The recogniser accepts a well-formed record found in place. */
  lemma CompleteLaidOut(line: string, r: LogRecord)
    requires WellFormed(r) && LaidOut(line, r)
    ensures Parse(line) == Some(r)
  {
    var t, c := |r.time|, |r.category|;
    var fracEnd, close := 11 + t, 13 + t + c;
    TimeInPlace(line, r.time);
    DigitRunExact(line, 20, fracEnd - 20);
    CategoryInPlace(line, fracEnd + 2, r.category);
    FindFromExact(line, ']', fracEnd + 2, close);
    RestOfLineExact(line[close + 2..], r.message);
    CompleteAfterCategory(line, fracEnd, close, r);
    CompleteFromStages(line, fracEnd, r);
  }

  /** A time found at position 11 passes the fixed-width check and is followed by its run of fraction digits. */
  lemma TimeInPlace(line: string, time: string)
    requires IsTime(time) && 11 + |time| <= |line| && line[11..11 + |time|] == time
    ensures line[11..20] == time[..9]
    ensures forall k :: 20 <= k < 11 + |time| ==> IsDigit(line[k])
  {
    assert line[11..20] == line[11..11 + |time|][..9];
    forall k | 20 <= k < 11 + |time| ensures IsDigit(line[k]) {
      assert line[k] == time[k - 11];
      assert time[k - 11] == time[9..][k - 20];
    }
  }

  /** A category found at position `i` holds no `]`. */
  lemma CategoryInPlace(line: string, i: nat, category: string)
    requires IsCategory(category) && i + |category| <= |line| && line[i..i + |category|] == category
    ensures forall k :: i <= k < i + |category| ==> line[k] != ']'
  {
    forall k | i <= k < i + |category| ensures line[k] != ']' {
      assert line[k] == category[k - i];
    }
  }

  /** The recogniser's first stage hands over to `ParseAfterTime` at the end of the digit run. */
  lemma CompleteFromStages(line: string, fracEnd: nat, r: LogRecord)
    requires 20 <= fracEnd <= |line|
    requires IsDate(line[..10]) && line[10] == ' ' && IsTimeHead(line[11..20])
    requires DigitRun(line, 20) == fracEnd - 20
    requires ParseAfterTime(line, fracEnd) == Some(r)
    ensures Parse(line) == Some(r)
  {
  }

  /** The last stage of the recogniser accepts groups that sit where the pattern puts them. */
  lemma CompleteAfterCategory(line: string, fracEnd: nat, close: nat, r: LogRecord)
    requires 20 <= fracEnd && fracEnd + 2 < close && close + 1 < |line|
    requires line[..10] == r.date && line[11..fracEnd] == r.time && line[fracEnd + 2..close] == r.category
    requires line[fracEnd] == ' ' && line[fracEnd + 1] == '['
    requires line[close + 1] == ' ' && RestOfLine(line[close + 2..]) == r.message
    requires FindFrom(line, ']', fracEnd + 2) == Some(close)
    ensures ParseAfterCategory(line, fracEnd, Some(close)) == Some(r)
    ensures fracEnd > 20 ==> ParseAfterTime(line, fracEnd) == Some(r)
  {
  }

  /** The recogniser succeeds exactly when the grammar matches, and fails (with no partial result) otherwise. */
  lemma ParseIffMatches(line: string, r: LogRecord)
    ensures Parse(line) == Some(r) <==> Matches(line, r)
  {
    if Parse(line) == Some(r) {
      ParseSound(line);
    }
    if Matches(line, r) {
      ParseComplete(line, r);
    }
  }

  /** The grammar is unambiguous: a line matches at most one record. */
  lemma MatchUnique(line: string, r1: LogRecord, r2: LogRecord)
    requires Matches(line, r1) && Matches(line, r2)
    ensures r1 == r2
  {
    ParseComplete(line, r1);
    ParseComplete(line, r2);
  }

  /** Round trip: a line without a newline is recognised as `r` exactly when it is `Format(r)` of a well-formed `r`. */
  lemma RoundTrip(line: string, r: LogRecord)
    requires '\n' !in line
    ensures Parse(line) == Some(r) <==> WellFormed(r) && Format(r) == line
  {
    ParseIffMatches(line, r);
    if Matches(line, r) {
      var f := Format(r);
      assert line[..|line|] == line;
    }
  }
}
