# Failure-message normaliser and session-status payload

The repository is a set of browser-driven end-to-end scenarios (add to cart,
search, registration, checkout) run against a demo shop and reported to a
cloud session dashboard. Apart from the calls into the browser-automation
library, it holds one small piece of logic, modelled here as pure Dafny
functions with lemmas:

- **The failure-message normaliser**, written inline in every scenario's
  `except` block: keep the exception text before the first `Call log:`,
  turn every newline into a space, every colon into `=>`, and delete every
  single quote, in that order (`ErrorMessage.Normalize`, built from the
  helpers `Strings.PrefixBefore`, `Strings.ReplaceChar` and
  `Strings.DropChar`).
- **The status payload** that `mark_test_status` hands to the browser: the
  prefix `browserstack_executor: ` and a JSON-like object with the action
  `setSessionStatus`, into which the status (`passed` / `failed`) and the
  reason are spliced verbatim (`SessionStatus.Payload`). Its partner is a
  reader, `SessionStatus.ParsePayload`, that recovers the status and reason;
  the two are proved inverse to each other.
- **The reporting tail of a scenario** (`Scenario.Conclude`): on success the
  scenario's own reason is reported unchanged with `passed`; on an exception
  the normalised text is reported with `failed` and is also the message the
  test is failed with.

Files: `strings.dfy` (module `Strings`), `error_message.dfy` (module
`ErrorMessage`), `session_status.dfy` (module `SessionStatus`),
`scenario.dfy` (module `Scenario`).

The normaliser keeps the newline that precedes the marker, so a typical
timeout message `"Timeout 5000ms exceeded.\nCall log:\n  - waiting …"`
normalises to `"Timeout 5000ms exceeded. "`, with a trailing space, and
not to `"Timeout 5000ms exceeded."`: the newline is turned into a space,
not dropped (`ErrorMessage.NormalizeTimeoutExample`).

## Model

| member | source | states |
|---|---|---|
| `Strings.PrefixBefore` | tests/sample-test.py:42 | `split(marker)[0]`: the result is a prefix of the input, the marker starts nowhere before its end, and it starts right after it whenever the result is shorter than the input (so the cut is at the first occurrence) |
| `Strings.PrefixBeforeWhole` | tests/sample-test.py:42 | the whole input is kept exactly when the marker does not occur in it |
| `Strings.PrefixBeforeIgnoresTrailer` | tests/sample-test.py:42 | two texts that agree up to and including the first marker have the same prefix: nothing after the marker matters |
| `Strings.PrefixBeforeIdempotent` | tests/sample-test.py:42 | splitting the kept prefix again changes nothing |
| `Strings.ReplaceChar` | tests/sample-test.py:42 | `replace(c, rep)` for one character: every output character is a kept input character other than `c` or comes from `rep`, every other input character survives, and text without `c` is unchanged |
| `Strings.ReplaceCharLength` | tests/sample-test.py:42 | each occurrence of `c` changes the length by the length of `rep` minus one |
| `Strings.ReplaceCharCount` | tests/sample-test.py:42 | a character that is neither `c` nor in `rep` keeps its number of occurrences |
| `Strings.ReplaceCharPointwise` | tests/sample-test.py:42 | with a one-character replacement the output has the same length and position `i` holds the replacement exactly where the input held `c` |
| `Strings.ReplaceCharConcat` | tests/sample-test.py:42 | replacement distributes over concatenation |
| `Strings.ReplaceCharAt` | tests/sample-test.py:42 | around any one character the replacement works in place: that character becomes `rep` if it is `c` and stays itself otherwise, between the replaced text before and after it (with `ReplaceCharConcat`, this fixes the output string exactly) |
| `Strings.DropChar` | tests/sample-test.py:42 | `replace(c, "")`: length drops by the number of occurrences of `c`, the output holds exactly the input's characters other than `c`, and text without `c` is unchanged |
| `Strings.DropCharCount` | tests/sample-test.py:42 | deleting `c` keeps the number of occurrences of every other character |
| `Strings.DropCharConcat` | tests/sample-test.py:42 | deletion distributes over concatenation |
| `Strings.DropCharAt` | tests/sample-test.py:42 | around any one character deletion works in order: that character disappears if it is `c` and stays in place otherwise (with `DropCharConcat`, this fixes the output string exactly) |
| `ErrorMessage.Normalize` | tests/sample-test.py:42 | the normalised text holds no newline, no colon and no single quote, and every character in it comes from the input or from `" =>"` |
| `ErrorMessage.Kept` | tests/sample-test.py:42 | the text the replacements act on is a prefix of the raw text, ends where the first marker starts, and is the whole raw text when there is no marker |
| `ErrorMessage.NormalizeLength` | tests/sample-test.py:42 | output length equals the kept prefix's length plus its colon count minus its single-quote count |
| `ErrorMessage.NormalizeIgnoresTrailer` | tests/sample-test.py:42 | the split happens on the raw text: once the first marker is reached, changing anything after it leaves the output unchanged |
| `ErrorMessage.NormalizeKeptOnly` | tests/sample-test.py:42 | normalising the kept prefix alone gives the same output as normalising the whole text |
| `ErrorMessage.NormalizeNoMarker` | tests/sample-test.py:42 | the output never contains the marker `Call log:` |
| `ErrorMessage.NormalizeClean` | tests/sample-test.py:42 | text without newlines, colons and single quotes is returned unchanged |
| `ErrorMessage.NormalizeIdempotent` | tests/sample-test.py:42 | normalising twice equals normalising once |
| `ErrorMessage.KeptBeforeMarker` | tests/sample-test.py:42 | for text `p` without a colon or without a `C` (so no marker can start inside it), exactly `p` is kept from `p + "Call log:" + rest`, whatever `rest` is |
| `ErrorMessage.NormalizeLineThenLog` | tests/sample-test.py:42 | a clean line, a line break and the call log normalise to the line followed by one space |
| `ErrorMessage.NormalizeTimeoutExample` | tests/sample-test.py:42 | the timeout message with a call log normalises to `"Timeout 5000ms exceeded. "` |
| `ErrorMessage.NormalizeFieldThenLog` | tests/sample-test.py:42 | a line `a:b` followed by a line break and the call log normalises to `a=>b` and one trailing space: the colon is rewritten in place |
| `ErrorMessage.NormalizeLocatorTimeoutExample` | tests/sample-test.py:42 | `"Page.wait_for_selector: Timeout 10000ms exceeded."` followed by a call log normalises to `"Page.wait_for_selector=> Timeout 10000ms exceeded. "` |
| `SessionStatus.StatusText` | tests/sample-test.py:39-43 | both status words are six characters long |
| `SessionStatus.ParseStatus` | tests/sample-test.py:153 | a status word that is read back is the rendering of the status read |
| `SessionStatus.Payload` | tests/sample-test.py:149-154 | the payload starts with `browserstack_executor: `, holds `"action": "setSessionStatus"` right after the opening brace, has the status word at a fixed position and the reason verbatim at a fixed position, and its length is a fixed overhead plus the reason's length |
| `SessionStatus.ParsePayloadRoundTrip` | tests/sample-test.py:153 | every payload reads back as exactly the status and reason it was built from, whatever characters the reason holds |
| `SessionStatus.PayloadOfParse` | tests/sample-test.py:153 | conversely, any text that reads back as a status and reason is the payload built from them |
| `SessionStatus.PayloadInjective` | tests/sample-test.py:153 | different status/reason pairs never produce the same payload |
| `Scenario.Conclude` | tests/sample-test.py:39-44 | assuming the report is delivered without error: on success the payload carries `passed` and the scenario's reason unchanged and no failure is raised; on an exception the payload carries `failed` and the same normalised text that the test is failed with |
| `Scenario.FailureReasonClean` | tests/sample-test.py:42-43 | a reported failure reason has status `failed` and holds no newline, colon, single quote or call-log marker |
| `Scenario.ConcludeIgnoresCallLog` | tests/sample-test.py:42-44 | exceptions whose texts agree through the first call-log marker yield identical reports |

The normaliser is written out identically at tests/sample-test.py:70,
:101 and :144; `Scenario.Conclude` stands for all four scenarios, whose
success paths are at :39, :67, :98 and :141 and whose failure paths are at
:41-44, :69-72, :100-103 and :143-146.

## Left out

- The browser interaction of the four scenarios (navigation, locators,
  clicks, form filling, waits, expectations and their timeouts): calls into
  an automation library and a live remote site; a scenario's body is
  reduced to its `Outcome`, either a success reason or the exception text.
- Converting the exception to text: the text is taken as given.
- The delivery of the payload through `page.evaluate`: a side channel into a
  browser context; only the string it is given is modelled.
- Raising `pytest.fail`: test-framework control flow; the report records the
  failure message instead, and the payload is built before it.
- The random e-mail address of the registration scenario: nondeterministic
  (and `random` is imported only when the file is run as a script, so under
  pytest that line raises, which the failure path then reports like any
  other exception).
- Normalisation of success reasons: the source reports them unchanged, so
  the model does not claim that every reported reason is normalised.
- JSON validity of the payload: double quotes and backslashes in a reason
  are never escaped (a double quote even survives normalisation, by
  `ErrorMessage.NormalizeClean`), so no well-formedness is promised; the
  payload is read back by its fixed layout instead.
- A fall-back variant of `mark_test_status` that swallows delivery failures
  and logs locally: the version in tests/sample-test.py has no such guard.
- Scenario.Conclude: assumes the delivery of each report does not raise.
  In the source a raising delivery changes the flow: the `passed` report
  sits inside the `try` (tests/sample-test.py:39, :67, :98, :141), so a
  delivery error there is caught by the `except` block, which then sends a
  second report, `failed` with the delivery error's normalised text, and
  fails the test with it; a delivery error in the `except` block itself
  (:43, :71, :102, :145) propagates instead, and the `pytest.fail` after it
  is never reached. Neither path is modelled.
- Strings.PrefixBefore: requires a non-empty marker; Python raises
  `ValueError` on an empty separator, and the only marker used is the
  constant `Call log:`.
- tests/test_imports.py: checks only that three packages import.
