# WebsiteChecker: the URL list handlers of the main window

WebsiteChecker is a GTK# desktop tool. The user types a list of URLs into a text
buffer and presses Start. The window then validates the list, requests each URL,
and files one status row per URL in a results tree. This project models the plain
logic of those handlers in `WebsiteChecker/MainWindow.cs`, with the widgets, the
network and the clock replaced by values.

- `Text` (`text.dfy`) models .NET's `String.Trim()` and
  `String.Split("\r\n".ToCharArray())`. `IsWhiteSpace` is the
  `Char.IsWhiteSpace` set of .NET Core 3.0 and later, which `String.Trim()` uses
  there. `SplitLines` keeps empty pieces. `Join` is its inverse, and the round trip
  is proved in both directions.
- `UrlPattern` (`url_pattern.dfy`) models the fixed pattern
  `((https?):((//)|(\\\\))+[\w\d:#@%/;$()~_?\+-=\\\.&]*)`.
  - `MatchSpan` describes the pattern's language: a scheme, a run of slash pairs,
    then characters of the bracket class.
  - `PatternFound` says what the unanchored `Regex.IsMatch` answers: some substring
    of the line is in that language.
  - `PatternFoundIffMarker` shows that this holds exactly when `http:` or `https:`,
    followed by `//` or by two backslashes, occurs somewhere in the line.
  - `IsMatch` is a plain substring scan with that meaning.
- `ResultStore` (`result_store.dfy`) models the `TreeStore`. It is a sequence of
  groups, one top-level row (the URL) per group, each with its child rows
  `(status, timestamp)`. It holds `FindIterIndexByURL`, which is a first-match
  search, and `AddURL`, which is find-or-append. `AddAll` is a run of `AddURL`
  calls.
- `MainWindow` (`main_window.dfy`) models `ValidateURLs`, `CheckURLs` and
  `OnBtnStartClicked`.
  - Each HTTP request is an `Outcome`:
    - `Responded(statusName)`: the name of the status code;
    - `WebError(message)`: a caught `WebException`;
    - `Unhandled`: any other exception. Such an exception is not caught and ends the
      handler.
  - Each `DateTime.Now` reading is a `clocks` entry.
  - `LastErrorMessage` is an independent description of the `statusDescription`
    variable. The loop invariant of `CheckURLs` ties the variable to it.

Behaviour as written, which the model keeps:
- An empty buffer is rejected before any line is looked at, so nothing is flagged.
  A buffer of white space trims to one empty line, which fails the pattern and is
  flagged.
- Two line breaks in a row inside the trimmed text produce an empty line, which
  fails the pattern. This covers a blank line and a Windows `"\r\n"` line end.
  So a list of two or more lines separated by CRLF is always refused. A CRLF at the
  very end is trimmed away and does no harm, so a one-line list ending in CRLF passes.
- The match is unanchored, so a line passes when the marker appears anywhere in it,
  surrounded by anything. No character has to follow the slashes.
- `statusDescription` is never cleared. A response that follows a `WebException`
  is filed as `"<status> <earlier message>"`, for example `"OK timed out"`.
- Requests are not de-duplicated. Two equal lines give two requests, and both rows
  are filed under one top-level row.
- The source has no polling timer, request timeout or per-URL row limit, so the
  model has none either.

## Model

| member | source | states |
|---|---|---|
| Text.TrimStartSpec | WebsiteChecker/MainWindow.cs:48 | dropping leading white space keeps a suffix; every dropped character is white space; what is kept does not start with white space |
| Text.TrimEndSpec | WebsiteChecker/MainWindow.cs:48 | dropping trailing white space keeps a prefix; every dropped character is white space; what is kept does not end with white space |
| Text.TrimSlice | WebsiteChecker/MainWindow.cs:48 | `Trim()` yields a contiguous slice of the text with only white space around it; a non-empty result neither starts nor ends with white space |
| Text.TrimIdempotent | WebsiteChecker/MainWindow.cs:48 | trimming twice equals trimming once |
| Text.TrimThenSpace | WebsiteChecker/MainWindow.cs:101 | a space appended to any text disappears again under `Trim()`, so `status + " " + ""` is filed as `status` trimmed |
| Text.TrimAllWhiteSpace | WebsiteChecker/MainWindow.cs:48 | text made only of white space trims to the empty string |
| Text.SplitLines | WebsiteChecker/MainWindow.cs:48 | splitting on `'\r'` and `'\n'` yields exactly one more piece than there are line-break characters, and no piece contains a line break |
| Text.SplitThenJoin | WebsiteChecker/MainWindow.cs:48 | re-joining the pieces with the line breaks they were split on restores the text exactly |
| Text.JoinThenSplit | WebsiteChecker/MainWindow.cs:48 | splitting text joined from break-free pieces restores those pieces and those breaks |
| Text.AdjacentBreaksGiveEmptyPiece | WebsiteChecker/MainWindow.cs:48 | two adjacent line-break characters leave an empty piece at some index ≥ 1 |
| UrlPattern.PatternFoundIffMarker | WebsiteChecker/MainWindow.cs:55-60 | a line matches the unanchored pattern iff it contains `http:` or `https:` followed by `//` or two backslashes; the starred bracket class never restricts the match |
| UrlPattern.MarkerFrom | WebsiteChecker/MainWindow.cs:60 | the scan from position `i` answers true iff the marker starts at some position at or after `i` |
| UrlPattern.IsMatch | WebsiteChecker/MainWindow.cs:60 | the per-line test answers true iff some substring of the line is in the pattern's language |
| UrlPattern.EmptyDoesNotMatch | WebsiteChecker/MainWindow.cs:55-62 | an empty line never matches |
| UrlPattern.SlashAddressMatches | WebsiteChecker/MainWindow.cs:55-60 | `http://example.com` matches |
| UrlPattern.BackslashAddressMatches | WebsiteChecker/MainWindow.cs:55-60 | `https:` followed by two backslashes matches even after other text on the line |
| UrlPattern.SingleSlashFails | WebsiteChecker/MainWindow.cs:55-60 | `http:/x` does not match: one slash is not enough |
| MainWindow.CheckLines | WebsiteChecker/MainWindow.cs:58-69 | the loop's verdict is true iff every line matches, and the flagged indices are exactly those of the lines that do not match |
| MainWindow.ValidateURLs | WebsiteChecker/MainWindow.cs:40-72 | an empty buffer is refused with nothing flagged; otherwise the list is valid iff every trimmed-and-split line matches, and exactly the non-matching line indices are flagged |
| MainWindow.ValidIffNothingFlagged | WebsiteChecker/MainWindow.cs:58-71 | for a non-empty buffer, the list is accepted iff no line is flagged |
| MainWindow.BlankTextRejected | WebsiteChecker/MainWindow.cs:44-69 | a non-empty buffer of white space only is refused and exactly line 0 is flagged |
| MainWindow.AdjacentBreaksRejected | WebsiteChecker/MainWindow.cs:48-71 | two adjacent line breaks inside the trimmed text (a CRLF line end or a blank line) make the list invalid and flag a line index ≥ 1 |
| MainWindow.Handled | WebsiteChecker/MainWindow.cs:83-99 | the number of URLs processed is the index of the first uncaught exception, or all of them: every outcome before it is handled, and the one at it is not |
| MainWindow.CheckURLs | WebsiteChecker/MainWindow.cs:74-103 | one `AddURL` call per line, in line order, up to the first uncaught exception; call `k` files line `k` with `Trim(status + " " + message of the latest WebException so far)` and clock `k`; the resulting tree is the one those calls build, in that order |
| MainWindow.ReportBeforeAnyError | WebsiteChecker/MainWindow.cs:78-101 | a response that comes before any `WebException` is filed as its status name alone, trimmed |
| MainWindow.ReportAfterError | WebsiteChecker/MainWindow.cs:78-101 | a response that comes after a `WebException` is filed as its status name followed by that exception's message, because the description is never reset |
| MainWindow.ReportOfError | WebsiteChecker/MainWindow.cs:92-101 | a `WebException` is filed as its own message, trimmed |
| MainWindow.StaleMessageExample | WebsiteChecker/MainWindow.cs:78-101 | for outcomes OK, timeout, OK, the first report is `OK` and the third is `OK timed out` |
| MainWindow.OnBtnStartClicked | WebsiteChecker/MainWindow.cs:31-38 | an invalid list leaves the tree untouched and makes no call; a valid list (so, by `ValidateURLs`, one whose every line matches) makes one call per line up to the first uncaught exception, call `k` filing line `k` with the report of request `k` and clock `k`, and the tree is the one those calls build |
| ResultStore.IndexOf | WebsiteChecker/MainWindow.cs:122-141 | the result is the smallest top-level index whose URL equals `url`, and -1 iff no top-level row carries `url` |
| ResultStore.FindIterIndexByURL | WebsiteChecker/MainWindow.cs:122-141 | the loop that stops at the first equal URL returns the first-match index, and -1 on an empty tree |
| ResultStore.AddURLFindOrAppend | WebsiteChecker/MainWindow.cs:105-119 | a known URL gets one child row appended to its own group, and all other groups and the order stay unchanged; an unknown URL gets a new group `(url, [row])` at the end |
| ResultStore.AddURLAddsOneRow | WebsiteChecker/MainWindow.cs:105-119 | every call adds exactly one child row to the tree |
| ResultStore.AddURLKeys | WebsiteChecker/MainWindow.cs:105-119 | the keys afterwards are the keys before plus `url`, and unique keys stay unique |
| ResultStore.AddURLRowsOf | WebsiteChecker/MainWindow.cs:105-119 | the call appends its row to the rows of `url` and leaves the rows of every other URL unchanged |
| ResultStore.AddAllAddsRows | WebsiteChecker/MainWindow.cs:101-118 | a run of calls adds exactly one child row per call |
| ResultStore.AddAllKeys | WebsiteChecker/MainWindow.cs:101-118 | a run of calls adds exactly the called URLs as keys |
| ResultStore.AddAllKeepsKeysUnique | WebsiteChecker/MainWindow.cs:101-118 | a run of calls never creates two top-level rows for one URL |
| ResultStore.AddAllRowsOf | WebsiteChecker/MainWindow.cs:101-118 | after a run of calls, each URL's rows are its earlier rows followed by the rows of the calls for that URL, in call order |

## Left out

- Painting on screen is not modelled. `Verdict.flagged` is the set of pieces that fail the
  pattern in one `ValidateURLs` call, not the set of lines painted on screen.
  - Only the first call on a non-empty buffer paints those lines red, subject to
    the line-numbering caveat below. A call on an empty buffer returns before it
    builds any tag.
  - Each call on a non-empty buffer builds another tag named "bold" and adds it to
    the buffer's tag table. The table refuses it after the first such call.
    `ApplyTag` then does nothing with a tag that is in no table. So every later call
    on a non-empty buffer refuses an invalid list and paints no line.
  - The tag is never removed, so lines painted by that first call stay red after
    they are corrected.
- GTK plumbing is not modelled: `SetUpInterface`, `OnDeleteEvent`, the bold red
  `TextTag`, `ApplyTag`, and `TextIter`/`TreeIter` handling. The flagged lines are
  modelled as a set of piece indices. The first call on a non-empty buffer paints buffer line `i` for piece `i`.
  Those two numberings differ when leading blank lines were trimmed away or the
  list uses CRLF line ends. The buffer's own line numbering is not modelled.
- The network is not modelled: `WebRequest.Create`, `GetResponse`,
  `response.Close`, and which failures .NET reports as `WebException`. Each request
  is an `Outcome` supplied by the caller. A reply with a status of 400 or more must be
  supplied as a `WebError`, because `GetResponse` throws a `WebException` for it, so a
  `Responded` name is one of the success or redirect status names.
- Closing a stale `response` is not modelled. The `finally` block closes the
  previous `response` again after a later failure, because the variable is never
  reset. That has no effect on what is filed.
- `DateTime.Now` is not modelled: each timestamp is a `clocks` entry supplied by the
  caller.
- An uncaught exception is modelled only as "the loop stops". Its propagation out
  of the GTK event handler is not modelled.
- `Text.IsWhiteSpace` is the `Char.IsWhiteSpace` set of .NET Core 3.0 and later,
  and so of its `String.Trim()`. The set `Trim()` uses depends on the runtime, and
  on other runtimes a verdict can differ:
  - .NET Framework 4 also trims U+180E, which the model keeps. There,
    `"http://a\n\u180E"` trims to `"http://a"` and is accepted. The model keeps two
    pieces and refuses the list.
  - .NET Framework 3.5 SP1 and earlier also trim U+200B and U+FEFF. They do not
    trim U+202F or U+205F, which the model trims. Like the model, they keep U+180E.
    There, `"http://a\n\u200B"` is accepted, while the model refuses it.
- `UrlPattern.IsWordChar` covers only ASCII letters, digits and `_`, not the full
  Unicode `\w` set. The class it sits in is starred, and `PatternFoundIffMarker`
  shows that the class never changes a match.
- A general regular-expression engine is not modelled. Only the one fixed pattern
  is, as the predicates above.
- `WebsiteChecker/lib/Configuration.cs` is not part of this model. It only reads
  settings through `ConfigurationManager` and the .NET `TryParse` functions, one of
  them for a `double`.
- Polling timers, request timeouts, URL de-duplication and row-limit eviction are
  not modelled, because `MainWindow.cs` has none of them.
