# signal-mcp in Dafny

A model of the logic of signal-mcp. signal-mcp is a small MCP server that gives an assistant three tools over
the `signal-cli` command-line client:

- `send_message_to_user`;
- `send_message_to_group`;
- `receive_message`.

The repository holds two versions of the server:

- `signal_mcp/main.py`, the current one;
- the older top-level `main.py`.

Both shell out to `signal-cli`. Once a subprocess run is taken as its result, what is left is deterministic:

- a line-by-line parser of `signal-cli receive` output;
- a first-match scan of `listGroups` output;
- the branch logic that turns exit codes, stderr and parse results into tool replies.

Modules:

- `Optional`: the `Option` type.
- `PyStr`: the Python `str` operations the code uses, on `string`: `strip()`, `split(sep)`, `split()`, `startswith`, `in` and `lower()`. Each comes with the lemmas the proofs need (split/join round trips, the shape of a stripped string, idempotence of strip).
- `Search`: the first true verdict in a sequence. Both parsers stop at the first line that settles the result.
- `SignalCli`: what both versions share. This covers:
  - the configuration, passed as a parameter instead of the global `config`;
  - the `signal-cli` invocations, as argument lists;
  - `RunOutcome`, which stands for a run of `_run_signal_cli`: either its `(stdout, stderr, returncode)` triple or the `SignalCLIError` it raises;
  - the labels of the receive format;
  - `_get_group_id`, `_send_message` and the two send tools. Their code is the same in both files.
- `SignalServer`: the per-envelope parser of `signal_mcp/main.py` and its `receive_message`.
  - `ParseReceiveOutput` is the loop of the source, with `ReadLine` as its body.
  - It is proved equal to `ParseCapture`, a declarative description, which says:
    - the envelope open at a line is the one its last header started;
    - the group state comes only from lines after that header;
    - the result is decided by the first line that raises or delivers a body.
- `LegacyServer`: the global-state parser of `main.py` and its `receive_message`.
  - `LegacyParseReceiveOutput` is proved equal to `LegacyParseCapture`.
  - The declarative side is the last quoted header, the last body, and the last group name read after `Group info:`, as they stand at the first line where sender and message are both non-empty.
- `Sample`: the capture of `tests/test_parse.py`, as its lines, and what both parsers make of it. It also holds a four-line capture that separates the two parsers on group scope.

Each tool that runs `signal-cli` also returns the commands it issues. This lets its contract say when a send happens and when it does not.

## Model

| member | source | states |
|---|---|---|
| PyStr.Split | signal_mcp/main.py:140 | `split(sep)` never returns an empty list; no part holds the separator; there is one part exactly when the separator is absent |
| PyStr.JoinSplit | signal_mcp/main.py:140 | joining the parts of a split with the separator gives back the text |
| PyStr.SplitJoin | signal_mcp/main.py:140 | parts without the separator, joined and split again, come back unchanged |
| PyStr.SplitAtSeparator | signal_mcp/main.py:140 | text joined at a separator splits into the parts of each side |
| PyStr.StripShape | signal_mcp/main.py:147 | `strip()` keeps a middle slice and removes only whitespace around it; it leaves no whitespace at either end; it is empty exactly for blank text |
| PyStr.StripIdempotent | signal_mcp/main.py:147 | stripping twice is stripping once |
| PyStr.StripStartsAt | signal_mcp/main.py:147 | stripped text starts with the first non-blank character |
| PyStr.Word | signal_mcp/main.py:161 | the first word is a blank-free prefix that ends at a blank or at the end of the text |
| PyStr.SplitWs | signal_mcp/main.py:161 | `split()` returns no words exactly when the text is blank |
| PyStr.FirstWordAfterBlanks | signal_mcp/main.py:161 | text made of blanks, then a blank-free word, then a blank or the end, splits with that word first, whatever follows |
| PyStr.FirstWordSplit | signal_mcp/main.py:161 | for non-blank text, the first word of `split()` sits after a run of blanks and before a blank or the end of the text |
| PyStr.LowerFolds | signal_mcp/main.py:260 | `lower()` turns each capital into its small letter and keeps every other character; no capital survives; lowering twice is lowering once; it works piece by piece |
| Search.FirstTrue | signal_mcp/main.py:146-187 | the index found holds a true verdict, and every verdict before it is false |
| Search.FirstTrueExtend | signal_mcp/main.py:174-187 | a sequence of verdicts extended at the end keeps its first true verdict |
| Search.FirstTrueAfter | signal_mcp/main.py:152-154 | behind a run of false verdicts, the search is the search of what follows, shifted |
| SignalCli.LabelsExclusive | signal_mcp/main.py:152-197 | a line carries at most one of `Envelope from:`, `Body:`, `Group info:` and `Name:`, so the order of the `elif` tests does not matter |
| SignalCli.StrippedLinesAppend | signal_mcp/main.py:140-147 | the lines of two outputs joined by a newline are the lines of the first followed by the lines of the second |
| SignalCli.StrippedLinesShape | signal_mcp/main.py:140-147 | no line the parser reads holds a newline, and a non-empty one starts and ends with a non-blank character |
| SignalCli.GetGroupId | signal_mcp/main.py:91-109 | the lookup finds the group exactly when the listing exited 0 and some line holds both `"Name: "` and the request; the request itself is returned; a launch failure escapes as its error text; the code at main.py:74-92 in the older file is the same |
| SignalCli.SendMessage | signal_mcp/main.py:112-131 | issues one `send`, with `-g` exactly for a group; succeeds exactly when the exit code is 0; a launch failure is a plain failure; the code at main.py:94-113 in the older file is the same |
| SignalCli.SendMessageToUser | signal_mcp/main.py:206-222 | one send; `"Message sent successfully"` exactly when it exits 0, otherwise `"Failed to send message"`; the code at main.py:163-177 in the older file is the same |
| SignalCli.SendMessageToGroup | signal_mcp/main.py:225-246 | `listGroups` always runs first. The send runs exactly when the lookup finds a non-empty request, and then goes to the request with `-g`. Success exactly when that send exits 0. A missing or empty group gives `"Could not find group: " + id` with no send. A lookup launch failure gives its error text; the code at main.py:179-198 in the older file is the same |
| SignalServer.SenderOf | signal_mcp/main.py:158-163 | a header without `+` gives no sender. A blank stretch after the first `+` is the IndexError case. Otherwise the sender is `+` and a token with no blanks and no further `+` |
| SignalServer.SenderFromWord | signal_mcp/main.py:158-162 | when the text between the first and second `+` is blanks, then a blank-free word, then a blank or the end, the sender is `+` and that word |
| SignalServer.SenderIsFirstToken | signal_mcp/main.py:158-162 | every sender found is `+` and the first blank-free word after the first `+`, possibly behind blanks |
| SignalServer.LastHeaderIsNearest | signal_mcp/main.py:152-154 | the envelope in force at a line is the one started by the nearest header before it |
| SignalServer.GroupNameAbsent | signal_mcp/main.py:189-200 | an envelope has no group name exactly when none of its `Name:` lines follows a `Group info:` line of that envelope |
| SignalServer.GroupNameIsLastName | signal_mcp/main.py:193-200 | a present group name is the text of a `Name:` line after a `Group info:` line of the same envelope, and no `Name:` line follows it: the last one wins |
| SignalServer.FirstDecisionAt | signal_mcp/main.py:166-187 | the line that decides the parse is the first line that raises or delivers a body |
| SignalServer.EnvelopeAfterHeader | signal_mcp/main.py:152-163 | a header line opens a fresh envelope, with its sender and no group, or opens none when it has no `+` |
| SignalServer.InGroupAfterOther | signal_mcp/main.py:189-191 | `Group info:` marks the open envelope as a group message, and no other line unmarks it |
| SignalServer.GroupAfterOther | signal_mcp/main.py:193-200 | a `Name:` line in a marked envelope replaces the group name; any other non-header line keeps it |
| SignalServer.OpenEnvelopeStep | signal_mcp/main.py:146-200 | the envelope open after a line is the one open before it, advanced by that line |
| SignalServer.PassLine | signal_mcp/main.py:146-200 | a line that decides nothing leaves the decision to the lines after it |
| SignalServer.DecideLine | signal_mcp/main.py:158-187 | a deciding line reached with no earlier decision gives the result: an IndexError for a header, or the body with its envelope's sender and group |
| SignalServer.DecidesByLine | signal_mcp/main.py:152-187 | whether a line ends the parse depends only on that line and the open envelope; a deciding header is exactly a raising one |
| SignalServer.ReadLine | signal_mcp/main.py:147-200 | one pass of the loop body. A blank line is skipped. The open envelope moves as the line says. The loop stops exactly on a raising header or on a body under an envelope with a sender, with that line's result |
| SignalServer.RunFrom | signal_mcp/main.py:146-203 | the line-by-line run from any line not yet decided gives the declarative result |
| SignalServer.RunIsParse | signal_mcp/main.py:146-203 | the line-by-line run from the top agrees with the declarative parse |
| SignalServer.ParseReceiveOutput | signal_mcp/main.py:134-203 | the loop over the stripped lines returns exactly the declarative parse of the output |
| SignalServer.ParsedFromEnvelope | signal_mcp/main.py:152-187 | a parsed record comes from the first deciding `Body:` line. Its envelope's header lies before it with no header in between. The sender is that header's `+` token. The group is that envelope's. The error is empty |
| SignalServer.IgnoredBody | signal_mcp/main.py:166-168 | a `Body:` line with no header before it is passed over, and so is one whose nearest header has no `+` |
| SignalServer.NotParsedWhenUndecided | signal_mcp/main.py:202-203 | the parse returns None exactly when no line raises or delivers |
| SignalServer.EmptyCaptureNotParsed | signal_mcp/main.py:146-150 | empty output parses to None |
| SignalServer.BlankTokenRaises | signal_mcp/main.py:158-161 | a header whose first `+` ends the line, or is followed by another `+`, raises the IndexError when nothing before it decided |
| SignalServer.ParseLinesIgnoresRest | signal_mcp/main.py:174-187 | once the parse decides, lines after the deciding one do not change the result |
| SignalServer.ParseCaptureIgnoresRest | signal_mcp/main.py:174-187 | the same, for output text extended after a newline |
| SignalServer.NoVerdictBefore | signal_mcp/main.py:152-154 | lines that decide nothing on their own decide nothing with more lines after them |
| SignalServer.FirstDecisionShifted | signal_mcp/main.py:152-154 | behind undecided lines, the deciding line is the one found from the next header on, shifted |
| SignalServer.FirstDecisionBehind | signal_mcp/main.py:152-154 | the same, case by case: no decision from the header on means none at all, and a decision there moves up by the number of lines before the header |
| SignalServer.OutcomeShift | signal_mcp/main.py:152-187 | a line that decides from a header on decides the same way, with the same result, behind any earlier lines |
| SignalServer.EnvelopeIsolation | signal_mcp/main.py:152-154 | when the lines before a header decide nothing, the result is what the lines from that header on give alone: no sender or group state crosses a header |
| SignalServer.ReceiveMessage | signal_mcp/main.py:249-284 | issues one `receive`. Branches in order: a launch failure gives its error. A non-zero exit gives an empty response if the lowered stderr holds `timeout`, else `"Failed to receive message: " + stderr`. Blank stdout gives an empty response. Otherwise the parse decides: its record, `"Failed to parse message output"` for None, or the IndexError text. An error reply has no other field. Message and sender come together, and the sender starts with `+` |
| LegacyServer.QuotedSender | main.py:140-143 | the split on `"` yields a sender exactly when the line holds a `"`, and that sender holds no `"` |
| LegacyServer.QuotedBetween | main.py:141-143 | the sender is the text between the first and second `"` |
| LegacyServer.QuotedToEnd | main.py:141-143 | with a single `"`, the sender is everything after it |
| LegacyServer.GroupInfoNeverResets | main.py:145-146 | once `Group info:` has been seen, group mode stays on to the end of the output |
| LegacyServer.LegacyReadLine | main.py:137-153 | one pass of the `if`/`elif` chain. A quoted header sets the sender. Exact `Group info:` turns group mode on. `Name:` in group mode sets the group. `Body:` sets the message |
| LegacyServer.LegacyRunFrom | main.py:136-161 | the line-by-line run from any line before the first ready one gives the declarative result |
| LegacyServer.LegacyParseReceiveOutput | main.py:115-161 | the loop returns exactly the declarative parse of the output |
| LegacyServer.LegacyReceiveMessage | main.py:200-234 | issues one `receive`. A launch failure gives `{"error": …}`. A non-zero exit gives `(None, None, None)` on a timeout, else `"Failed to receive message: " + stderr`. Blank stdout gives `(None, None, None)`. Otherwise the parsed tuple, or `"Failed to parse message output"`. A tuple is empty or has a non-empty message and sender |
| LegacyServer.SenderAfterIsLast | main.py:140-143 | the sender in force is the quoted text of the last header with a `"`, so a header without one keeps the previous sender |
| LegacyServer.MessageAfterIsLast | main.py:151-152 | the message in force is the text of the last `Body:` line, so a later body overwrites it |
| LegacyServer.LegacyParsedFrom | main.py:155-158 | a returned tuple pairs the last body with the last quoted header, both non-empty, at the first line where both are. The two lines may come in either order. The group is the one in force there |
| LegacyServer.LegacyNotParsedWhenNeverReady | main.py:160-161 | the parse returns None exactly when no line leaves both sender and message non-empty |
| LegacyServer.BareBodyCannotTrigger | main.py:151-155 | a `Body:` line with nothing after the label leaves the message falsy and cannot end the parse |
| LegacyServer.NoQuoteNotParsed | main.py:140-143 | when no header holds a straight `"`, the parse returns None |
| LegacyServer.HeaderKeepsGroup | main.py:140-150 | a header leaves group mode and the group name as they were |
| LegacyServer.BodyAndHeaderEitherOrder | main.py:151-158 | a body and a quoted header give the same tuple in either order |
| LegacyServer.LegacyParseLinesIgnoresRest | main.py:155-158 | once the parse returns, later lines do not change the result |
| LegacyServer.LegacyParseCaptureIgnoresRest | main.py:155-158 | the same, for output text extended after a newline |
| Sample.HeaderSender | tests/test_parse.py:7 | the sender taken from the sample's header is `+11234567890` |
| Sample.CaptureParsed | tests/test_parse.py:6-70 | the current parser reads the sample as message `yo` from `+11234567890` with no group |
| Sample.CaptureNotParsedByLegacy | tests/test_parse.py:6-62 | the older parser finds no sender in the sample, whose names sit between curly quotes, so it returns None |
| Sample.LegacyGroupLeaks | main.py:145-150 | the older parser attaches a group name read before a header to the next envelope's message |
| Sample.GroupScopedToEnvelope | signal_mcp/main.py:152-154 | the current parser forgets that group name at the header |

## Behaviour of the code worth knowing

- `_get_group_id` returns the group name as requested, not the name as listed. The search is a substring test: a line matches when it holds both `"Name: "` and the request anywhere.
- `send_message_to_user` answers `"Failed to send message"` for every failure, including a launch failure. `_send_message` catches that failure itself.
- The older parser never resets its state between envelopes. A group name read before a header is reported with the message of the envelope that header opens (`Sample.LegacyGroupLeaks`).
- The older parser returns None on the capture in `tests/test_parse.py`. Its headers quote the name with `“ ”`, and that parser looks for `"`.
- The test compares the parse with a tuple. The current parser returns a `MessageResponse`, so `Sample.CaptureParsed` states the expected field values.

## Left out

- `_run_signal_cli`: launching the process, draining its pipes and decoding bytes. Every run is an input `RunOutcome`: the output, the error text and the exit code, or the text of the failure it raises.
- Quoting of commands with `shlex.quote`: commands are argument lists (`Command`). The quoted shell string is not built.
- `int(timeout)`: the `receive` timeout is an integer number of seconds. Truncation of a float is not modelled.
- `PyStr.Lower`: lowers ASCII letters only, where Python's `lower()` also lowers other letters. This matters only for the `timeout` test on stderr.
- Logging, FastMCP registration, `initialize_server`, the transport choice, `run_mcp_server` and `main` have no effect on results. The transport is kept in the configuration but never read.
- `async` execution: every tool runs to completion on its own, so there is no interleaving to model.
- The `current_sender` local and the `message`/`has_body` keys of the envelope dictionary: they are written but never change what the parser returns.
- `check_mcp.py`: a client script, all I/O.
- `Sample`: the test's capture is stated as its list of lines. That these are the newline-split lines of the test's string literal is not proved.
