/**
 * The log pipeline behind the `/api/logs` endpoint: the fetched log text is
 * split into lines, only the last `MaxLines` raw lines are kept, each kept
 * line is run through the recogniser in order, the matches are collected and
 * the collection is returned newest first.  A failed fetch yields one
 * sentinel record instead of an error.
 */
module LogPipeline {
  import opened Wrappers
  import opened LogParser

  /** How many raw lines, counted from the end of the text, are looked at. */
  const MaxLines: nat := 100

  // ---------------------------------------------------------------------------
  // Splitting the text into lines, as Python's `str.splitlines`
  // ---------------------------------------------------------------------------

  /**
   * The line boundaries of `str.splitlines`.  The newline is one of them, so
   * no split line holds a newline at which the pattern's `.*` could stop.
   */
  predicate IsLineBreak(c: char)
    ensures c == '\n' ==> IsLineBreak(c)
    ensures IsLineBreak(c) ==> !IsDigit(c) && c != ']' && c != ' '
  {
    c == '\n' || c == '\r' || c == '\U{000B}' || c == '\U{000C}' || c == '\U{001C}' || c == '\U{001D}' ||
    c == '\U{001E}' || c == '\U{0085}' || c == '\U{2028}' || c == '\U{2029}'
  }

  predicate NoLineBreak(s: string) {
    forall k :: 0 <= k < |s| ==> !IsLineBreak(s[k])
  }

  /** The length of the first line of `text`, before its boundary (or the whole text). */
  function LineLength(text: string, i: nat): (n: nat)
    requires i <= |text|
    ensures i + n <= |text|
    ensures forall k :: i <= k < i + n ==> !IsLineBreak(text[k])
    ensures i + n == |text| || IsLineBreak(text[i + n])
    decreases |text| - i
  {
    if i == |text| || IsLineBreak(text[i]) then 0 else 1 + LineLength(text, i + 1)
  }

  /**
   * The lines of `text`, oldest first.  A boundary ends a line and is dropped,
   * `\r\n` counts as one boundary, and a boundary at the very end does not
   * start a further, empty line.
   */
  function SplitLines(text: string): (lines: seq<string>)
    ensures forall j :: 0 <= j < |lines| ==> NoLineBreak(lines[j])
    ensures |lines| <= |text|
    ensures lines == [] <==> text == []
    decreases |text|
  {
    if text == [] then []
    else
      var n := LineLength(text, 0);
      if n == |text| then [text]
      else
        var next := if text[n] == '\r' && n + 1 < |text| && text[n + 1] == '\n' then n + 2 else n + 1;
        [text[..n]] + SplitLines(text[next..])
  }

  /** Text without a boundary is one line. */
  lemma SplitLinesOneLine(text: string)
    requires text != [] && NoLineBreak(text)
    ensures SplitLines(text) == [text]
  {
  }

  /**
   * A boundary other than the `\r` of a `\r\n` ends the line before it and is
   * dropped; the lines of the rest follow.
   */
  lemma SplitLinesAtBreak(line: string, c: char, rest: string)
    requires NoLineBreak(line) && IsLineBreak(c)
    requires !(c == '\r' && rest != [] && rest[0] == '\n')
    ensures SplitLines(line + [c] + rest) == [line] + SplitLines(rest)
  {
    var text := line + [c] + rest;
    LineLengthAt(text, line);
    assert text[..|line|] == line;
    assert text[|line| + 1..] == rest;
  }

  /** `\r\n` is a single boundary: it ends the line before it, and no empty line comes between. */
  lemma SplitLinesAtCrLf(line: string, rest: string)
    requires NoLineBreak(line)
    ensures SplitLines(line + "\r\n" + rest) == [line] + SplitLines(rest)
  {
    var text := line + "\r\n" + rest;
    LineLengthAt(text, line);
    assert text[..|line|] == line;
    assert text[|line| + 2..] == rest;
  }

  /** The first line of a text that starts with a boundary-free `line` followed by a boundary is `line`. */
  lemma LineLengthAt(text: string, line: string)
    requires NoLineBreak(line) && |line| < |text| && text[..|line|] == line && IsLineBreak(text[|line|])
    ensures LineLength(text, 0) == |line|
  {
  }

  // ---------------------------------------------------------------------------
  // The specification of the pipeline
  // ---------------------------------------------------------------------------

  /** `lines[-MaxLines:]`: the last `MaxLines` lines, or all of them when there are fewer. */
  function KeptLines(lines: seq<string>): (kept: seq<string>)
    ensures |kept| == if |lines| <= MaxLines then |lines| else MaxLines
    ensures kept == lines[|lines| - |kept|..]
  {
    if |lines| <= MaxLines then lines else lines[|lines| - MaxLines..]
  }

  /** The results of `f` on the elements of `s` where it gives one, in the order of `s`. */
  function Collect<A, B>(f: A -> Option<B>, s: seq<A>): (r: seq<B>)
    ensures |r| <= |s|
  {
    if s == [] then []
    else
      var init := Collect(f, s[..|s| - 1]);
      match f(s[|s| - 1])
      case Some(b) => init + [b]
      case None => init
  }

  /** The positions of the elements of `s` where `f` gives a result, in increasing order. */
  function Positions<A, B>(f: A -> Option<B>, s: seq<A>): seq<nat> {
    if s == [] then []
    else
      var init := Positions(f, s[..|s| - 1]);
      if f(s[|s| - 1]).Some? then init + [|s| - 1] else init
  }

  /** The records of the lines that match, in the order of the lines. */
  function FilterParse(lines: seq<string>): (records: seq<LogRecord>)
    ensures |records| <= |lines|
  {
    Collect(Parse, lines)
  }

  /** `s[::-1]` */
  function Reversed<T>(s: seq<T>): (r: seq<T>)
    ensures |r| == |s|
  {
    if s == [] then [] else [s[|s| - 1]] + Reversed(s[..|s| - 1])
  }

  /** What the pipeline returns for a fetched log text: the matches among the kept lines, newest first. */
  function LogsOf(text: string): (records: seq<LogRecord>)
    ensures |records| <= MaxLines
    ensures text == [] ==> records == []
  {
    Reversed(FilterParse(KeptLines(SplitLines(text))))
  }

  /** The sentinel returned when the fetch fails; `e` is the text of the exception. */
  function ErrorRecord(e: string): (r: LogRecord)
    ensures r.category == "ERROR" && r.date == [] && r.time == []
    ensures !WellFormed(r)
  {
    LogRecord("", "", "ERROR", "Connect failed: " + e)
  }

  // ---------------------------------------------------------------------------
  // The pipeline
  // ---------------------------------------------------------------------------

  /**
   * `get_logs`, with the fetch of the log text given as its outcome: the body
   * of the response, or the text of the exception the fetch raised.
   */
  method GetLogs(fetched: Result<string, string>) returns (records: seq<LogRecord>)
    ensures fetched.Failure? ==> records == [ErrorRecord(fetched.error)]
    ensures fetched.Success? ==> records == LogsOf(fetched.value)
  {
    if fetched.Failure? {
      return [ErrorRecord(fetched.error)];
    }
    var lines := KeptLines(SplitLines(fetched.value));
    var parsed: seq<LogRecord> := [];
    for i := 0 to |lines|
      invariant parsed == FilterParse(lines[..i])
    {
      CollectSnoc(Parse, lines[..i], lines[i]);
      assert lines[..i + 1] == lines[..i] + [lines[i]];
      var m := Parse(lines[i]);
      if m.Some? {
        parsed := parsed + [m.value];
      }
    }
    assert lines[..|lines|] == lines;
    records := Reversed(parsed);
  }

  // ---------------------------------------------------------------------------
  // Properties of the pipeline
  // ---------------------------------------------------------------------------

  /** Reversal keeps the length and reads the sequence from the back. */
  lemma {:induction false} ReversedAt<T>(s: seq<T>)
    ensures |Reversed(s)| == |s|
    ensures forall k :: 0 <= k < |s| ==> Reversed(s)[k] == s[|s| - 1 - k]
  {
    if s != [] {
      ReversedAt(s[..|s| - 1]);
    }
  }

  /** Extending the input by one element extends the results by that element's result, if any. */
  lemma CollectSnoc<A, B>(f: A -> Option<B>, s: seq<A>, x: A)
    ensures Collect(f, s + [x]) == Collect(f, s) + (if f(x).Some? then [f(x).value] else [])
  {
    assert (s + [x])[..|s|] == s;
  }

  /** The results for a concatenation are the results for its parts: no element affects another's result. */
  lemma {:induction false} CollectAppend<A, B>(f: A -> Option<B>, a: seq<A>, b: seq<A>)
    ensures Collect(f, a + b) == Collect(f, a) + Collect(f, b)
    decreases |b|
  {
    if b == [] {
      assert a + b == a;
    } else {
      var b' := b[..|b| - 1];
      assert (a + b)[..|a + b| - 1] == a + b';
      CollectAppend(f, a, b');
    }
  }

  /**
   * `Positions` lists, in strictly increasing order, exactly the positions
   * where `f` gives a result, and `Collect` holds those results in that order.
   */
  lemma PositionsSpec<A, B>(f: A -> Option<B>, s: seq<A>)
    ensures var idx := Positions(f, s);
      |Collect(f, s)| == |idx| &&
      (forall k :: 0 <= k < |idx| ==> idx[k] < |s| && f(s[idx[k]]) == Some(Collect(f, s)[k])) &&
      (forall k, l :: 0 <= k < l < |idx| ==> idx[k] < idx[l]) &&
      (forall j :: 0 <= j < |s| && f(s[j]).Some? ==> j in idx)
  {
    PositionsResults(f, s);
    PositionsIncreasing(f, s);
    PositionsComplete(f, s);
  }

  lemma {:induction false} PositionsResults<A, B>(f: A -> Option<B>, s: seq<A>)
    ensures var idx := Positions(f, s);
      |Collect(f, s)| == |idx| &&
      (forall k :: 0 <= k < |idx| ==> idx[k] < |s| && f(s[idx[k]]) == Some(Collect(f, s)[k]))
  {
    if s != [] {
      var init := s[..|s| - 1];
      PositionsResults(f, init);
      var idx0 := Positions(f, init);
      forall k | 0 <= k < |idx0| ensures idx0[k] < |s| && s[idx0[k]] == init[idx0[k]] {
      }
    }
  }

  lemma {:induction false} PositionsIncreasing<A, B>(f: A -> Option<B>, s: seq<A>)
    ensures forall k :: 0 <= k < |Positions(f, s)| ==> Positions(f, s)[k] < |s|
    ensures forall k, l :: 0 <= k < l < |Positions(f, s)| ==> Positions(f, s)[k] < Positions(f, s)[l]
  {
    if s != [] {
      PositionsIncreasing(f, s[..|s| - 1]);
    }
  }

  lemma {:induction false} PositionsComplete<A, B>(f: A -> Option<B>, s: seq<A>)
    ensures forall j :: 0 <= j < |s| && f(s[j]).Some? ==> j in Positions(f, s)
  {
    if s != [] {
      var init := s[..|s| - 1];
      PositionsComplete(f, init);
      var idx, idx0 := Positions(f, s), Positions(f, init);
      assert forall i :: i in idx0 ==> i in idx;
      forall j | 0 <= j < |s| && f(s[j]).Some? ensures j in idx {
        if j < |init| {
          assert s[j] == init[j];
        }
      }
    }
  }

  /** Lines none of which match give no records. */
  lemma {:induction false} NoMatchesNoRecords(lines: seq<string>)
    requires forall j :: 0 <= j < |lines| ==> Parse(lines[j]).None?
    ensures FilterParse(lines) == []
  {
    if lines != [] {
      var init := lines[..|lines| - 1];
      assert forall j :: 0 <= j < |init| ==> init[j] == lines[j];
      NoMatchesNoRecords(init);
      assert Parse(lines[|lines| - 1]).None?;
    }
  }

  /** A line that does not match is dropped without trace and without effect on the other records. */
  lemma NonMatchingDropped(a: seq<string>, line: string, b: seq<string>)
    requires Parse(line).None?
    ensures FilterParse(a + [line] + b) == FilterParse(a + b)
  {
    CollectAppend(Parse, a + [line], b);
    CollectAppend(Parse, a, [line]);
    CollectAppend(Parse, a, b);
    assert Collect(Parse, [line]) == [] by {
      assert [line][..0] == [];
    }
  }

  /** At most `MaxLines` records, and never more records than raw lines. */
  lemma LogsBounded(text: string)
    ensures |LogsOf(text)| <= MaxLines
    ensures |LogsOf(text)| <= |SplitLines(text)|
  {
    ReversedAt(FilterParse(KeptLines(SplitLines(text))));
  }

  /** Empty log text gives no records, and no error. */
  lemma EmptyTextNoRecords()
    ensures LogsOf("") == []
  {
  }

  /** Lines older than the last `MaxLines` play no part: whatever precedes them, the result is the same. */
  lemma OlderLinesIgnored(older: seq<string>, recent: seq<string>)
    requires |recent| >= MaxLines
    ensures Reversed(FilterParse(KeptLines(older + recent))) == Reversed(FilterParse(KeptLines(recent)))
  {
    assert (older + recent)[|older + recent| - MaxLines..] == recent[|recent| - MaxLines..];
  }

  /** Read backwards, the results come from strictly decreasing positions, and every position with a result is among them. */
  lemma ReversedOrigins<A, B>(f: A -> Option<B>, s: seq<A>) returns (origin: seq<nat>)
    ensures var out := Reversed(Collect(f, s));
      |origin| == |out| &&
      (forall k :: 0 <= k < |out| ==> origin[k] < |s| && f(s[origin[k]]) == Some(out[k])) &&
      (forall k, l :: 0 <= k < l < |out| ==> origin[k] > origin[l]) &&
      (forall j :: 0 <= j < |s| && f(s[j]).Some? ==> j in origin)
  {
    var results, idx := Collect(f, s), Positions(f, s);
    PositionsSpec(f, s);
    ReversedAt(results);
    ReversedAt(idx);
    ReversedSameElements(idx);
    origin := Reversed(idx);
  }

  /** Reversal keeps the elements. */
  lemma ReversedSameElements<T>(s: seq<T>)
    ensures forall x :: x in s ==> x in Reversed(s)
  {
    ReversedAt(s);
    forall x | x in s ensures x in Reversed(s) {
      var i :| 0 <= i < |s| && s[i] == x;
      assert Reversed(s)[|s| - 1 - i] == x;
    }
  }

  /** A record recognised in a line without line breaks formats back to the whole line. */
  lemma RecordOfLine(line: string, r: LogRecord)
    requires NoLineBreak(line) && Parse(line) == Some(r)
    ensures WellFormed(r) && Format(r) == line
  {
    RoundTrip(line, r);
  }

  /**
   * Newest first: the `k`-th record returned is the record of kept line
   * `origin[k]`, the origins strictly decrease, every matching kept line is
   * among them, and each record formats back to its whole line.
   */
  lemma NewestFirst(text: string) returns (origin: seq<nat>)
    ensures var kept, out := KeptLines(SplitLines(text)), LogsOf(text);
      |origin| == |out| &&
      (forall k :: 0 <= k < |out| ==> origin[k] < |kept| && Parse(kept[origin[k]]) == Some(out[k])) &&
      (forall k :: 0 <= k < |out| ==> WellFormed(out[k]) && Format(out[k]) == kept[origin[k]]) &&
      (forall k, l :: 0 <= k < l < |out| ==> origin[k] > origin[l]) &&
      (forall j :: 0 <= j < |kept| && Parse(kept[j]).Some? ==> j in origin)
  {
    var lines := SplitLines(text);
    var kept := KeptLines(lines);
    origin := ReversedOrigins(Parse, kept);
    var out := LogsOf(text);
    forall k | 0 <= k < |out| ensures WellFormed(out[k]) && Format(out[k]) == kept[origin[k]] {
      assert kept[origin[k]] == lines[|lines| - |kept| + origin[k]];
      RecordOfLine(kept[origin[k]], out[k]);
    }
  }

  /** The sentinel can never be mistaken for a record read from a line: its date is empty. */
  lemma ErrorRecordDistinct(e: string, text: string)
    ensures !WellFormed(ErrorRecord(e))
    ensures ErrorRecord(e) !in LogsOf(text)
  {
    var origin := NewestFirst(text);
  }
}
