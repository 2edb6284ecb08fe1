# Channels DVR monitor: log parser and log pipeline

This project models the core of a small monitoring facade for a Channels DVR
server (`main.py`). The facade exposes two read-only endpoints:

* `/api/logs` fetches the DVR's raw log text and splits it into lines. It keeps
  only the last 100 raw lines and runs each one through one regular expression,
  `date time [category] message`. The records that match are returned newest
  first. If the fetch raises, the endpoint returns a single sentinel record with
  category `ERROR`, an empty date and an empty time.
* `/api/status` passes the DVR's activity document through unchanged. If the
  fetch or the decode raises, it returns `{"Activities": []}`.

The Dafny model has four modules:

* `Wrappers` (`wrappers.dfy`): `Option` and `Result`.
* `LogParser` (`log_parser.dfy`): `LogRecord`, a hand-written recogniser
  `Parse` for the one pattern of `main.py:13`, and a declarative statement of
  the grammar (`WellFormed`, `Format`, `Matches`). Lemmas prove that the
  recogniser and the grammar agree in both directions, that the match is
  unique, and that a parsed line formats back to itself.
* `LogPipeline` (`log_pipeline.dfy`): Python's `str.splitlines`, the
  last-100-lines slice, the imperative parse-and-append loop of `get_logs` as
  the method `GetLogs`, and the specification `LogsOf` that the method is
  proved to compute. Lemmas cover bounds, newest-first order, the silent drop
  of lines that do not match, and the irrelevance of older lines.
* `StatusRelay` (`status_relay.dfy`): the choice between the fetched document
  and the fallback.

The calls to the DVR are inputs of the model. A fetch is a
`Result<string, string>` for the log text and a `Result<Json, string>` for the
status document. `e` in `Failure(e)` is the exception's text. For
`GetLogs` a `Failure` stands for an exception that `except Exception` catches
(main.py:26), raised while fetching. For `GetStatus` it stands for anything
the bare `except:` catches (main.py:35), raised while fetching or decoding.

## Model

| member | source | states |
|---|---|---|
| `LogParser.DigitRun` | main.py:13 | the greedy `\d+` of the fractional seconds: the run stays within the line, holds only digits, and ends at the end of the line or at a non-digit |
| `LogParser.FindFrom` | main.py:13 | finds the first `]` after the `[`, which is where `[^\]]+` must stop; `None` exactly when no `]` follows |
| `LogParser.RestOfLine` | main.py:13 | what `.*` consumes: a prefix of the rest of the line with no newline, ending at the end of the line or at a newline |
| `LogParser.Parse` | main.py:23 | `LOG_PATTERN.match(line)`: a match has a 10-character date read from the start of the line, a time of at least 10 characters and a non-empty category. The full characterisation is in `ParseIffMatches`, `RoundTrip` and `ParseSound` |
| `LogParser.ParseSound` | main.py:13 | every record `Parse` returns satisfies the grammar and begins the line; the date has 10 characters; the time has at least 10 characters with its only `.` at position 8; the category is non-empty, holds no `]`, and is closed by the first `]` |
| `LogParser.ParseComplete` | main.py:23 | `re.match` anchored at position 0: whenever the grammar matches a line with some record, `Parse` returns exactly that record |
| `LogParser.ParseIffMatches` | main.py:13 | `Parse(line) == Some(r)` if and only if the line matches the grammar with groups `r`; otherwise the result is `None`, with no partial result |
| `LogParser.MatchUnique` | main.py:13 | the grammar is unambiguous: a line matches at most one record |
| `LogParser.RoundTrip` | main.py:13 | for a line without a newline, `Parse(line) == Some(r)` exactly when `r` is well-formed and `date + " " + time + " [" + category + "] " + message == line` |
| `LogParser.TimeHasOneDot` | main.py:13 | a time of the pattern's shape holds exactly one `.`, at position 8 |
| `LogPipeline.IsLineBreak` | main.py:20 | the boundary set of `str.splitlines`. Its ensures say that the newline is a boundary, so no split line holds a newline for `.*` to stop at, and that no boundary is a digit, `]` or a space of the pattern. How boundaries cut the text is stated by `SplitLinesAtBreak` and `SplitLinesAtCrLf` |
| `LogPipeline.SplitLines` | main.py:20 | `splitlines()`: no line holds a line-boundary character, there are no more lines than characters, and the empty text gives no lines (and only the empty text does) |
| `LogPipeline.SplitLinesOneLine` | main.py:20 | a non-empty text without a boundary is one line, itself |
| `LogPipeline.SplitLinesAtBreak` | main.py:20 | a boundary (other than the `\r` of a `\r\n`) ends the boundary-free text before it, is dropped, and the lines of the rest follow in order |
| `LogPipeline.SplitLinesAtCrLf` | main.py:20 | `\r\n` is one boundary: it ends the line before it and no empty line comes between |
| `LogPipeline.LineLengthAt` | main.py:20 | the first line of a text ends at its first boundary |
| `LogPipeline.KeptLines` | main.py:20 | `[-100:]`: the kept lines are the last `min(100, n)` of the `n` lines |
| `LogPipeline.GetLogs` | main.py:16-27 | a failed fetch gives exactly `[ErrorRecord(e)]`; a successful fetch gives exactly `LogsOf(text)`, which is the matches among the kept lines, in line order, reversed; the loop keeps `parsed` equal to the matches of the lines processed so far |
| `LogPipeline.Collect` | main.py:21-24 | the list the loop builds, for any matcher: never longer than its input. Its content and order are stated by `PositionsSpec`, `CollectAppend` and `CollectSnoc` |
| `LogPipeline.FilterParse` | main.py:21-24 | `parsed` after the loop (and the loop invariant of `GetLogs`): never more records than lines. The records are, in order, those of exactly the matching lines (`PositionsSpec`); lines contribute independently (`CollectAppend`); non-matching lines drop out (`NonMatchingDropped`); no matching line means no records (`NoMatchesNoRecords`) |
| `LogPipeline.NoMatchesNoRecords` | main.py:22-24 | when no line matches, the loop collects nothing |
| `LogPipeline.Reversed` | main.py:25 | `parsed[::-1]`: keeps the length. Element `k` is element `n - 1 - k` (`ReversedAt`), and every element is kept (`ReversedSameElements`) |
| `LogPipeline.CollectSnoc` | main.py:22-24 | loop-step helper for `GetLogs`: processing one more line appends its match to `parsed`, or nothing when it does not match (one unfolding of `Collect`) |
| `LogPipeline.CollectAppend` | main.py:22-24 | the records of concatenated lines are the records of each part, concatenated: a line never affects another line's record |
| `LogPipeline.NonMatchingDropped` | main.py:23-24 | among the lines that are parsed, one that does not match is dropped without error and without effect on the records of the other lines. It still occupies one of the 100 kept lines, because truncation comes before parsing |
| `LogPipeline.PositionsSpec` | main.py:22-24 | the collected records are, in order, the records of exactly the matching lines, and their positions strictly increase |
| `LogPipeline.ReversedAt` | main.py:25 | `[::-1]` keeps the length and reads element `k` from position `n - 1 - k` |
| `LogPipeline.ReversedSameElements` | main.py:25 | `[::-1]` keeps every element |
| `LogPipeline.ReversedOrigins` | main.py:22-25 | after reversal, the records come from strictly decreasing line positions, and every matching line is among them |
| `LogPipeline.LogsOf` | main.py:20-25 | the result for a fetched text: at most 100 records, none for empty text. Its order and content are stated by `NewestFirst`, and `GetLogs` is proved to compute it |
| `LogPipeline.ErrorRecord` | main.py:27 | the sentinel has category `ERROR` with an empty date and time, and it is not a well-formed record |
| `LogPipeline.NewestFirst` | main.py:20-25 | each returned record is the parse of a kept line and formats back to the whole line; a record from a later line always comes before one from an earlier line; every matching kept line is represented |
| `LogPipeline.LogsBounded` | main.py:20-25 | the result has at most 100 records and no more records than raw lines |
| `LogPipeline.EmptyTextNoRecords` | main.py:20-25 | empty log text gives an empty result, not an error |
| `LogPipeline.OlderLinesIgnored` | main.py:20 | when at least 100 lines follow them, older lines have no effect on the result, whether they match or not |
| `LogPipeline.ErrorRecordDistinct` | main.py:26-27 | the sentinel record is not well-formed, because its date is empty, so it never appears among the records of a successful fetch |
| `LogPipeline.RecordOfLine` | main.py:13 | a record recognised in a line produced by `splitlines` is well-formed and formats back to the whole line |
| `StatusRelay.GetStatus` | main.py:30-36 | a successful fetch passes the document through unchanged; any failure gives exactly `{"Activities": []}`, whose `Activities` member is the empty array |

## Left out

- Network I/O: the `httpx` client, `async`/`await` and the 5-second timeouts (main.py:18-19, main.py:32-33). A fetch is an input value, and a timeout is one more `Failure`.
- HTTP status codes: `httpx` does not raise on a non-2xx response, so such a body is parsed or decoded like any other. The model adds no status-code check.
- `resp.text` (main.py:20) and `resp.json()` (main.py:34) decode the response and are library calls. The log text is given as a string. The status document is an opaque `Json` value, and an error raised by `resp.json()` is a `Failure` of the status fetch.
- The exception text in `Connect failed: {e}` (main.py:27) depends on how Python formats the exception. It is modelled as an arbitrary string `e`.
- FastAPI routing, the static file mount and `FileResponse` (main.py:8, main.py:15, main.py:29, main.py:39-47) are framework plumbing.
- The `DVR_IP` and `DVR_URL` configuration (main.py:11-12) comes from the process environment and is not modelled.
- `LogParser.IsDigit`: Python's `\d` on `str` matches every Unicode decimal digit, but the model accepts only the ASCII digits `0`-`9`.
- `LogPipeline.GetLogs`: an exception that derives only from `BaseException`, such as `asyncio.CancelledError`, `KeyboardInterrupt` or `SystemExit`, escapes `get_logs` because of `except Exception` (main.py:26). The model has no outcome for such an escape; its `Failure` covers only what is caught. The bare `except:` of `get_status` (main.py:35) does catch these, and there `Failure` includes them.
- The dictionary key order of the JSON objects in the response is not modelled.
- The endpoint as written has no `limit` or `search` parameter and no case-insensitive filter, so none is modelled. It truncates the raw lines to 100 before parsing, so fewer than 100 records can come back even when older matching lines exist. The model follows the code here.
