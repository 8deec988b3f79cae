# Jira attribution clean-up, modelled in Dafny

`exercise.py` is a one-shot maintenance script for a Jira project. It pages
through the search endpoint for every ticket whose description mentions
`Contributed by:`. For each ticket it appends a `(key, id, summary)` row to
the report file `Jira_Cleanup.csv`. It then sends the ticket back with its
description rewritten by
`re.sub(r"\nContributed by: .*\n", "", description)`.

The project models that core in four modules:

- `Cleaning` (`cleaning.dfy`) holds the substitution, written out for its one
  fixed pattern.
  - `Tokenize` is a left-to-right scanner that cuts the text into kept
    characters and deleted matches. `Clean` is the text that remains.
  - `IsMatch` and `LeftmostParse` give a declarative reference: what one
    match is, and what a leftmost, non-overlapping cut of a text is.
  - The scanner is proved to produce that cut, and the cut is proved to be
    unique.
  - `Clean` is proved to leave a text unchanged exactly when the pattern
    matches nowhere in it.
  - Lemmas say what happens to attribution lines at the start, in the
    middle and at the end of a description, and when two come one after
    the other.
- `Pagination` (`pagination.dfy`) holds the `query_jira` loop.
  - The search endpoint is a function from `startAt` offset to page.
  - `QueryJira` is proved against `Requests`, the sequence of offsets the
    loop asks for, and against `Gathered`, the issues those pages hold.
  - Lemmas give the shape of that sequence and what a well-behaved
    endpoint returns.
- `Tickets` (`tickets.dfy`) holds the ticket records and the `dict.get`
  defaults.
- `Cleanup` (`cleanup.dfy`) holds `add_to_report`, `update_description` and
  `main`.
  - The report file and the stream of updates sent to the tracker are
    append-only sequences in the `Effects` class.
  - `Run`, the model of `main`, is proved to write one row and send one
    cleaned description per fetched issue, in fetch order.

`Wrappers` (`wrappers.dfy`) holds the `Option` type used for absent JSON
keys.

What the substitution does, as written:

- `re.sub` is called without `count`, so every match is deleted, not only
  the first.
- The pattern includes both the newline before `Contributed by:` and the
  one after the author's name. Deleting a match therefore joins the line
  before it to the line after it: `Header\nContributed by: Alice\nFooter`
  becomes `HeaderFooter`, not `Header\nFooter`. `CleanJoinsSurroundingLines`
  states this example, and `CleanDeletesAttributionLine` states
  it in general.
- A marker on the last line, with no newline after it, is not matched and
  stays, whatever lines come before it (`CleanUnterminatedLine`).
- An attribution line still open at a newline takes that newline as its
  closing one. So when the first of two attribution lines in a row is
  deleted, the second loses its leading newline and stays
  (`CleanAdjacentAttributions`). An attribution line whose preceding line
  is not one is deleted on its own (`CleanDeletesAttributionLine`,
  `NewlineKeptAfterLine`).
- A marker at the very start of the description, with no newline before
  it, is not matched and stays (`CleanKeepsLeadingMarker`).

## Model

| member | source | states |
|---|---|---|
| Tickets.DescriptionOf | exercise.py:173 | the ticket's description when both `fields` and `description` are present; the empty string when either is absent |
| Cleaning.NextNewline | exercise.py:175 | the index found lies at or after `from` and inside the text |
| Cleaning.NextNewlineFirst | exercise.py:175 | the index found holds a newline and no newline comes before it; `None` means no newline follows (`.` stops at the first newline) |
| Cleaning.StartsWithSlice | exercise.py:175 | the character-by-character prefix test holds exactly when the leading slice equals the prefix |
| Cleaning.MatchLength | exercise.py:175 | a match found at the first position is longer than the lead `\nContributed by: ` and fits in the text |
| Cleaning.MatchLengthSound | exercise.py:175 | what the scanner finds at a position is a whole match of `\nContributed by: .*\n` |
| Cleaning.MatchLengthNone | exercise.py:175 | when the scanner finds nothing at a position, no match starts there |
| Cleaning.MatchLengthComplete | exercise.py:175 | any match starting at a position is exactly the one the scanner finds: `.` stops at the first newline |
| Cleaning.Tokenize | exercise.py:175 | the scanned pieces put back together give the input text |
| Cleaning.Clean | exercise.py:175 | the cleaned description is never longer than the original |
| Cleaning.CleanIsKeptText | exercise.py:175 | the cleaned description is exactly the kept characters of the scan |
| Cleaning.TokenizeIsLeftmostParse | exercise.py:175 | the scan deletes only whole matches and keeps a character only where no match starts (leftmost, non-overlapping) |
| Cleaning.LeftmostParseUnique | exercise.py:175 | every leftmost non-overlapping cut of a text is the scan's, so the result is determined by the pattern alone |
| Cleaning.CleanLength | exercise.py:175 | the cleaned length is the original length minus the total length of the deleted matches |
| Cleaning.CleanUnchangedIff | exercise.py:175 | a description comes back unchanged if and only if the pattern matches nowhere in it |
| Cleaning.CleanWithoutLead | exercise.py:175 | a description that never contains `\nContributed by: ` comes back unchanged |
| Cleaning.CleanKeepsFirst | exercise.py:175 | a first character other than a newline is always kept |
| Cleaning.CleanAfterNewlineFreePrefix | exercise.py:175 | text before the first newline is copied, and the rest is cleaned on its own |
| Cleaning.CleanAfterMatch | exercise.py:175 | a whole match at the front is deleted and the scan resumes right after it |
| Cleaning.MatchLengthExtend | exercise.py:175 | a match found at the front of a text is still the one found when text is appended |
| Cleaning.MatchLengthAcrossNewline | exercise.py:175 | a match starting before a newline ends at that newline at the latest, so the text after it does not change the match |
| Cleaning.CleanAtNewline | exercise.py:175 | at a newline, either the newline is kept and the text before it is cleaned on its own, or an attribution still open on the line above takes it as its closing newline, it is gone from the output, and the scan resumes after it |
| Cleaning.NoMatchOnUnterminatedLine | exercise.py:175 | a newline followed by a line with no closing newline does not begin a match |
| Cleaning.CleanUnterminatedTail | exercise.py:175 | a last line with no closing newline, with or without the newline before it, comes back unchanged |
| Cleaning.LastLineKept | exercise.py:175 | for any text before it, the last line, when no newline closes it, is copied to the output unchanged |
| Cleaning.CleanUnterminatedLine | exercise.py:175 | an attribution on the last line, with no closing newline, is left in place whatever comes before it: the output is the cleaned earlier lines, then `Contributed by: ` and the name |
| Cleaning.CleanKeepsLeadingMarker | exercise.py:175 | `Contributed by: ` at the very start, with no newline before it, is kept |
| Cleaning.CleanDeletesAttributionLine | exercise.py:175 | an attribution line anywhere in the text is deleted together with the newline before it and the one after it, and the text before and after it are cleaned on their own, provided the newline before it is kept when the text before it is cleaned (no attribution on the line above is still open) |
| Cleaning.CleanDeletesAttributionAfterFirstLine | exercise.py:175 | an attribution on the second line is deleted with both its newlines: the first line is joined to the cleaned lines after it |
| Cleaning.LineOpensWithMarker | exercise.py:175 | a line between two newlines can begin a match only if it begins with `Contributed by: ` |
| Cleaning.OrdinaryLineKept | exercise.py:175 | a line that does not begin with `Contributed by: `, with newlines on both sides, comes back unchanged |
| Cleaning.NewlineKeptAfterLine | exercise.py:175 | after a line that does not begin with `Contributed by: `, the newline ending it is kept, whatever comes before it |
| Cleaning.CleanDeletesAttributionAfterLine | exercise.py:175 | an attribution line after any line that is not itself an attribution is deleted, and the text before and after it are cleaned on their own |
| Cleaning.CleanShortText | exercise.py:175 | a text no longer than the lead is returned unchanged |
| Cleaning.CleanJoinsSurroundingLines | exercise.py:175 | `Header\nContributed by: Alice\nFooter` becomes `HeaderFooter`: the lines around the attribution are joined |
| Cleaning.CleanAdjacentAttributions | exercise.py:175 | of two attribution lines in a row, when the first is deleted (the newline before it is kept when the text before it is cleaned), the second stays, because matches do not overlap |
| Cleaning.CleanAdjacentAttributionsAfterFirstLine | exercise.py:175 | two attribution lines in a row starting on the second line: the first is deleted and the second stays, joined to the first line |
| Cleaning.CleanNotIdempotent | exercise.py:175 | one pass can leave a match behind that a second pass deletes, so cleaning is not idempotent |
| Cleaning.CleanAfterBlankLine | exercise.py:175 | a newline followed by another newline is kept |
| Pagination.PageIssues | exercise.py:69 | the page's `issues` list, or the empty list when the key is absent, so such a page contributes nothing |
| Pagination.PageTotal | exercise.py:71 | the page's `total`, or 0 when the key is absent |
| Pagination.RequestsShape | exercise.py:59-72 | the loop asks for offsets 0, 1000, 2000, …; every page but the last reports a total of at least the next offset, and the last reports a total below it |
| Pagination.QueryJira | exercise.py:59-73 | the offsets requested are `Requests(server, bound, 0)`, and the result is `Fetched(server, bound)`: every issue of those pages, concatenated in request order |
| Pagination.GatheredSplit | exercise.py:69 | the issues of two runs of requests are the first run's issues followed by the second's |
| Pagination.RequestsIgnoreBound | exercise.py:65-72 | the offsets requested depend only on the server's answers, not on the bound used to prove termination |
| Pagination.RequestCountForConstantTotal | exercise.py:70-72 | with a fixed total `t >= 0`, the loop makes `t / 1000 + 1` requests, one more than needed when `t` is a multiple of 1000 |
| Pagination.MissingTotalStops | exercise.py:71 | a first page without `total` (read as 0) ends the loop after one request, returning only that page's issues |
| Pagination.WellBehavedFetchesAll | exercise.py:59-73 | a server that pages through a fixed list and reports its length as the total yields exactly that list |
| Cleanup.ReportRow | exercise.py:135-139 | the row carries the ticket's key and id, and its summary or the empty string when `fields` or `summary` is absent |
| Cleanup.CleanedUpdate | exercise.py:173-175 | the update is for the ticket's own key; its description is never longer than the original, and equals it exactly when no attribution line matches, in which case the script still sends it |
| Cleanup.LogsAppend | exercise.py:171-176 | handling one more issue appends one row and one update at the end |
| Cleanup.Effects.constructor | exercise.py:140 | a run starts from the rows the report file already holds and has sent no update |
| Cleanup.Effects.AddToReport | exercise.py:135-142 | one row is appended to the report; earlier rows and the updates are unchanged |
| Cleanup.Effects.UpdateDescription | exercise.py:97-104 | the new description is sent for the key, the result is `true` whatever the response, and the report is unchanged |
| Cleanup.Effects.Run | exercise.py:170-176 | the report gains one row per fetched issue and the tracker one cleaned description per fetched issue, in fetch order |
| Cleanup.OnePageRun | exercise.py:170-176 | against a one-page server holding two tickets, a run writes exactly their two rows and sends exactly their two updates |

## Left out

- HTTP requests, URLs, the JQL query, the `Authorization` header and the response body of the update: the search endpoint is a parameter (`Server`), and each update is recorded rather than sent.
- The response is read twice with `response.json()` (exercise.py:69 and 71); the model reads the page once, so both reads see the same JSON.
- JSON decoding: values of the wrong type (a `null` summary, a non-string description, a non-integer `total`) are not modelled. Each key is either present with the expected type or absent.
- `csv.writer` quoting, and `None` written as an empty field: a report row is kept as the tuple itself.
- File handling for `Jira_Cleanup.csv` (opening, creating, flushing, I/O errors): the file is the sequence of its rows.
- Exceptions (network errors, bad JSON, an `issues` value that is not a list) and the script aborting part-way: every run in the model completes.
- Pagination.QueryJira: requires a ghost `bound` on the `total` the server reports at every offset, including offsets the script never requests. So it does not cover a server whose totals are unbounded. That includes servers that make the script loop forever (a `total` that grows with every page). It also includes some servers on which the script stops, such as one that reports its offset as its total, which stops after the first request.
- Cleaning.Clean: models only the fixed pattern `\nContributed by: .*\n`, not a general regular-expression engine. Characters are compared exactly, with no Unicode normalisation. As in Python without `re.DOTALL`, `.` matches every character except `\n`, so `\r` is an ordinary character.
