# watch+ in Dafny

A model of the core of watch+, a `watch(1)` clone that re-runs a command,
shows its output full-screen with changed lines highlighted, and can e-mail
a coloured diff whenever the output changes. It models four pieces:

- the terminal-text helpers and the loop of `src/watch.ts`:
  - `stripAnsi`, `truncateLine` and `highlightDiffs`;
  - the decision taken after every run of the command (change, beep,
    notification, exit);
  - the pause before the next run and the once-only terminal cleanup;
- the notification engine of `src/email.ts`: the last-send time and the
  single queued change, and the transitions `sendChangeNotification`,
  `flushPending` and `sendEmail`;
- the diff helpers of `src/diff.ts`: `hasChanged`, `escapeHtml` and
  `diffToHtml`;
- option resolution in `src/config.ts`: `parseDuration` and
  `resolveOptions`.

Modules follow the source files:

| module | file | contents |
|---|---|---|
| `Wrappers` | `wrappers.dfy` | `Option`, `Result` |
| `Strings` | `strings.dfy` | character classes, JavaScript `split`/`join`/global `replace`, decimal numerals |
| `Types` | `types.dfy` | `WatchOptions`, `Config`, `ExecutionResult` |
| `Ansi` | `ansi.dfy` | `stripAnsi`, `truncateLine` |
| `Highlight` | `highlight.dfy` | `highlightDiffs` |
| `Diff` | `diff.dfy` | `hasChanged`, `escapeHtml`, `diffToHtml` |
| `Email` | `email.dfy` | the cooldown engine |
| `Config` | `config.dfy` | `parseDuration`, `resolveOptions` |
| `Watch` | `watch.dfy` | the loop's decision, display, pacing and cleanup |

Modelling choices:

- Strings are `seq<char>`. A Dafny `char` is a Unicode scalar value, which is
  one UTF-16 code unit for every character outside the astral planes.
- Durations and intervals are exact `real`s. Clock readings are `int`
  milliseconds.
- The clock, the mail transport and the diff library are inputs:
  - every engine call receives `now`, the clock reading at its start;
  - the transport's outcome is a `Delivery`. It is either `Delivered(at)`,
    with the clock reading once the send has completed, or `Threw(value)`;
  - `generateDiff` is a function parameter `diff`.
- A run of the loop is a function of the sequence of command results
  (`ExecutionResult`). Its outcome is the exit status, if any, and the
  notifications handed to the e-mail sender.
- `permanentHighlights`, a mutable `Set<number>`, is threaded through
  `highlightDiffs` as a value.

Two behaviours of the code that a reader of its comments might not expect:

- `stripAnsi` (src/watch.ts:19-23, commented as stripping ANSI escape
  sequences) does not always remove every escape. Its two passes are single
  left-to-right replacements, so removing an inner code can assemble a new
  one. `"\x1b[\x1b[0m1m"` strips to `"\x1b[1m"`, so stripping is not
  idempotent and its result may still hold an escape
  (`Ansi.StripAnsiNotIdempotent`).
- `truncateLine` (src/watch.ts:69-92) treats everything from an ESC to the
  next ASCII letter as zero-width. It therefore keeps a leading escape even
  at width 0, and an OSC title stops being free after its first letter
  (`Ansi.TruncateTitleAtZero`).

## Model

| member | source | states |
|---|---|---|
| Ansi.StripAnsi | src/watch.ts:20-23 | stripAnsi only deletes: its result is never longer than its input (what it deletes is pinned down by `Ansi.StripAnsiRender` and `Ansi.StripAnsiPlain`) |
| Ansi.StripAnsiPlain | src/watch.ts:20-23 | text containing no ESC passes through stripAnsi unchanged |
| Ansi.StripAnsiRender | src/watch.ts:20-23 | for text made of plain runs, `ESC [ digits/; letter` colour codes and `ESC ] … BEL` titles, stripAnsi returns exactly the plain text: every escape is removed and nothing else is |
| Ansi.StripCsiRender | src/watch.ts:22 | the first pass removes exactly the CSI chunks of well-formed styled text and leaves OSC chunks and plain text in place |
| Ansi.StripOscRender | src/watch.ts:22 | the second pass, over CSI-free styled text, removes exactly the OSC chunks |
| Ansi.StripCsiEscFreePrefix | src/watch.ts:22 | an ESC-free prefix is copied through the CSI pass unchanged |
| Ansi.StripOscEscFreePrefix | src/watch.ts:22 | an ESC-free prefix is copied through the OSC pass unchanged |
| Ansi.ParamRun | src/watch.ts:22 | the `[0-9;]*` part of the CSI pattern is the longest run of digits and semicolons |
| Ansi.CsiLength | src/watch.ts:22 | a CSI match is at least three characters and lies within the input |
| Ansi.OscLength | src/watch.ts:22 | an OSC match is at least three characters and lies within the input |
| Ansi.StripAnsiNotIdempotent | src/watch.ts:22 | `"\x1b[\x1b[0m1m"` strips to `"\x1b[1m"`, which strips again to `""` |
| Ansi.TruncateLine | src/watch.ts:69-92 | the result is the unique longest prefix of the line whose visible width is at most the limit (a negative limit acts as 0); its width is the smaller of the limit and the line's width; a line that fits is returned whole; an ESC-free line is cut after `min(w, length)` characters |
| Ansi.TruncationUnique | src/watch.ts:75-90 | at most one prefix is the longest within the width, so the truncation is determined by the line and the limit |
| Ansi.VisibleWidthMonotone | src/watch.ts:77-89 | a longer prefix never occupies fewer columns |
| Ansi.VisibleWidthEscFree | src/watch.ts:87-89 | without ESC every character costs one column |
| Ansi.WidthAfterClosedPrefix | src/watch.ts:77-89 | after a prefix that ends outside an escape, the scanner reads the rest as if from the start, and the widths add up |
| Ansi.OpenEscapeRun | src/watch.ts:77-85 | ESC followed by text with no letter and no ESC stays inside the escape and costs nothing |
| Ansi.ClosedEscape | src/watch.ts:82-85 | the first ASCII letter after an ESC closes the escape, still at no cost |
| Ansi.TruncateKeepsLeadingEscape | src/watch.test.ts:55-58 | `"\x1b[31mhello\x1b[0m"` cut to 3 columns is `"\x1b[31mhel"`: the colour code is kept whole |
| Ansi.TruncateTitleAtZero | src/watch.ts:77-87 | `"\x1b]0;title\x07xyz"` cut to 0 columns is `"\x1b]0;t"`: the scanner's escape ends at the first letter, not at BEL |
| Highlight.HighlightDiffs | src/watch.ts:121-151 | the remembered set becomes the old set plus every position where the lines differ; the result joins with newlines one displayed line per position up to the longer output; each displayed line is the new line (`""` past its end), reversed exactly when it changed now or, in permanent mode, when its position is remembered |
| Highlight.Displayed | src/watch.ts:128-148 | one displayed line per position up to the longer of the two outputs |
| Highlight.HighlightedLines | src/watch.ts:133-141 | a line is highlighted iff it changed in this comparison, or it is in the remembered set in permanent mode |
| Highlight.PermanentStaysHighlighted | src/watch.ts:135-141 | in permanent mode a position that changed once stays highlighted in every later comparison that reaches it |
| Highlight.DisplayedSplit | src/watch.ts:150 | splitting the joined result at newlines gives the displayed lines back, one per position |
| Highlight.PermanentModeExample | src/watch.test.ts:117-133 | two permanent-mode calls, where line 1 changes and then reverts while line 0 changes, leave both lines highlighted |
| Highlight.RemovedLineExample | src/watch.test.ts:104-115 | a removed line is shown as an empty reversed line |
| Diff.HasChangedOnWhitespace | src/diff.test.ts:5-20 | a trailing space or `\r\n` for `\n` is a change; identical text is not |
| Diff.EscapeHtmlIsEscapeEach | src/diff.ts:34-40 | the four global replacements escape character by character: `&`, `<`, `>` and `"` become their entities and every other character is kept |
| Diff.EscapeHtmlChar | src/diff.ts:34-40 | a single character is escaped to its entity or left alone |
| Diff.EscapeHtmlAppend | src/diff.ts:34-40 | escaping distributes over concatenation |
| Diff.EscapeHtmlNoMarkup | src/diff.ts:34-40 | escaped text holds no `<`, `>` or `"` |
| Diff.EscapeHtmlKeepsAbsent | src/diff.ts:34-40 | escaping introduces no character other than those of the entities |
| Diff.UnescapeEscape | src/diff.ts:34-40 | escaping loses nothing: decoding the four entities gives the input back |
| Diff.UnescapeEscapeEach | src/diff.ts:34-40 | decoding the entities undoes the character-by-character escape |
| Diff.UnescapeEntity | src/diff.ts:36-39 | each of the four entities decodes to its character |
| Diff.DiffToHtml | src/diff.ts:15-32 | the HTML starts with `<pre` and ends with `</pre>` |
| Diff.DiffToHtmlLines | src/diff.ts:16-31 | the `<pre>` body holds exactly one rendered line per line of the diff text, in order |
| Diff.ReadRenderLine | src/diff.ts:17-28 | a rendered line shows its line's escaped text wrapped in the span for its class: green for `+` but not `+++`, red for `-` but not `---`, purple for `@@`, no span otherwise |
| Diff.ReadDiffToHtml | src/diff.ts:15-32 | reading the classes and texts back from the HTML recovers the diff text exactly |
| Diff.RenderLineNoNewline | src/diff.ts:17-28 | a rendered line adds no newline of its own |
| Diff.OpenTagsDiffer | src/diff.ts:20-26 | the three opening tags are distinguishable: none is a prefix of another |
| Diff.EscapedIsNotTag | src/diff.ts:18-28 | escaped text never starts with a tag |
| Diff.ClassifyExamples | src/diff.test.ts:64-86 | `+…` is an addition, `-…` a removal and `@@ …` a hunk header; `--- previous` and `+++ current` get no colour |
| Email.EscapeHtmlAgrees | src/email.ts:125-130 | on text without `"`, the e-mail module's escapeHtml agrees with the one in diff.ts |
| Email.EscapeHtmlKeepsQuote | src/email.ts:125-130 | the e-mail module's escapeHtml leaves `"` unescaped, unlike the one in diff.ts |
| Email.ComposeMessage | src/email.ts:41-56 | the message goes to the caller's recipient, from the caller's sender, with the caller's subject, and its text part is `generateDiff(old, new, command)` |
| Email.MessageShowsDiff | src/email.ts:42-48 | the HTML part holds, between the heading and the footer, a block that reads back as exactly the plain-text diff |
| Email.MessageShowsCommand | src/email.ts:46 | a command without `&`, `<` or `>` appears verbatim in the HTML |
| Email.SendEmail | src/email.ts:32-66 | a message is always attempted; only a completed send sets the last-send time, to the clock after the send; a failure leaves the state unchanged and replies with the error's message or the stringified value |
| Email.Ceil | src/email.ts:88 | `Math.ceil`: the least integer not below its argument |
| Email.RemainingSeconds | src/email.ts:88-91 | the seconds remaining are the rounded-up rest of the cooldown, and at least 1 whenever a change is queued |
| Email.SendChangeNotification | src/email.ts:69-97 | inside the cooldown nothing is sent, the clock stays, and the change is stored whole or, when one is queued, only its new output replaces the queued one's, with a "queued" reason; outside it the queue is emptied and the caller's own change is sent; a completed send sets the last-send time to the clock after the send and gives no reason, a failed one keeps the last-send time and replies with the error's message or the stringified value |
| Email.FlushPending | src/email.ts:99-121 | with nothing queued it replies "No pending changes" and changes nothing; before the queued change's cooldown has passed it replies "Cooldown still active" and changes nothing; otherwise the slot is emptied before the queued change is sent, so a failed send loses it; a completed send sets the last-send time to the clock after the send, a failed one keeps it and replies with the error's message or the stringified value |
| Email.ZeroCooldownSends | src/email.test.ts:73-90 | with a zero cooldown every call at or after the last send sends |
| Email.QueuedRunCoalesces | src/email.ts:81-92 | changes queued one after another collapse into one holding the first queued change's fields and the last one's new output, and nothing is sent meanwhile |
| Email.NotifyOnlySendsOwnChanges | src/email.ts:95-96 | in a run of notifications alone, every message sent is built from the notification that triggered it, so a queued change never reaches the transport |
| Email.CoalescedFlush | src/email.ts:69-121 | a send, two changes inside its cooldown and a flush after it send two messages; the second diffs the first queued change's old output against the last one's new output |
| Email.CoalescedFlushExample | src/email.test.ts:135-178 | with a 50 ms cooldown the flushed message diffs version 2 against version 4, so the pair involving version 3 never reaches the diff |
| Config.DigitRunFacts | src/config.ts:23 | `\d+` is the longest run of digits from the given position: every character in it is a digit and the next one is not |
| Config.SpaceRunFacts | src/config.ts:23 | `\s*` is the longest run of JavaScript white space from the given position: every character in it is white space and the next one is not |
| Config.DecimalValue | src/config.ts:25 | the value of a matched numeral is never negative |
| Config.ApplyUnit | src/config.ts:27-37 | the `switch` succeeds exactly on `ms`, `s`, `m` and `h`, keeps a non-negative value non-negative, and otherwise fails with the "Unknown duration unit" error naming the unit |
| Config.ParseDuration | src/config.ts:22-39 | every duration parsed is at least 0; every failure is the "Invalid duration" error naming the input, so the "Unknown duration unit" branch is never taken |
| Config.ParseDurationGrammar | src/config.ts:23-24 | parsing succeeds exactly on strings of one or more digits, an optional `.digits` fraction, white space and an optional `ms`, `s`, `m` or `h` in any letter case |
| Config.ParseDurationOfForm | src/config.ts:25-35 | for a string of that form the result is the numeral's value times 1, 1000, 60000 or 3600000 for `ms`, `s`, `m` or `h`, with seconds when the unit is omitted |
| Config.ParseDurationHasForm | src/config.ts:23-24 | every string that parses has that form |
| Config.ScanOfForm | src/config.ts:23 | on a string of the grammar's form, the greedy scan stops exactly at the numeral, fraction, space and unit boundaries |
| Config.ParseDurationCaseInsensitive | src/config.ts:23-26 | lower-casing the input changes neither whether it parses nor its value |
| Config.ParseDurationLowerKeeps | src/config.ts:23-26 | an input that parses parses to the same value once lower-cased |
| Config.ParseDurationLowerReflects | src/config.ts:23-26 | an input whose lower-cased form parses parses itself |
| Config.LowerKeepsForm | src/config.ts:23 | lower-casing keeps the grammar's split points, and the numeral text is unchanged |
| Config.UpperKeepsForm | src/config.ts:23 | if the lower-cased input has the grammar's form, so does the input |
| Config.LowerOfForm | src/config.ts:23-26 | lower-casing an input of the grammar's form leaves its duration unchanged |
| Config.ParseDurationExamples | src/config.test.ts:6-39 | `500ms`, `0.5s`, `1m`, `2h`, `2.5`, `5S` and `500MS` give 500, 500, 60000, 7200000, 2500, 5000 and 500 ms |
| Config.ParseDurationRejects | src/config.test.ts:41-46 | `""`, `"abc"`, `"-5s"` and `"5x"` give the "Invalid duration" error |
| Config.ResolveDifferences | src/config.ts:81-86 | `"permanent"` and `"cumulative"` give permanent mode; an absent or false flag is off; anything else turns highlighting on |
| Config.ResolveWith | src/config.ts:65-106 | the interval comes from a non-empty flag, then the configuration, then 2 s; the API key from the flag, then the environment, then the configuration; the addresses from the flag, then the configuration; absent boolean flags are off; the subject and command pass through |
| Config.ResolveOptions | src/config.ts:60-107 | resolution fails exactly when the cooldown text (flag, then configuration, then `"1m"`) does not parse, with parseDuration's error; otherwise the options carry the parsed cooldown |
| Config.ResolveOptionsDefaults | src/config.test.ts:53-72 | with no flags and an empty configuration: a 2 s interval, a one-minute cooldown, every flag off, no addresses |
| Config.CooldownPrecedence | src/config.ts:69-71 | the cooldown flag overrides the configured default, which overrides one minute |
| Watch.Decide | src/watch.ts:220-262 | a change needs a previous output, and colour codes do not count; the bell rings exactly on a change with `--beep`; a notification goes out exactly on a change with a sender, recipient and from-address, carrying both stripped outputs, the command and the subject (default `watch+: change detected in '<command>'`); `--chgexit` exits with 0 on a change and takes precedence; otherwise `--errexit` exits with the command's own non-zero status, changed or not |
| Watch.FirstIterationUnchanged | src/watch.ts:226-228 | the first run never counts as a change: no bell, no notification, no change exit |
| Watch.Loop | src/watch.ts:220-311 | the loop hands at most one notification per run to the e-mail sender, and it can only exit after a run |
| Watch.LoopExit | src/watch.ts:220-262 | the loop exits at the first run whose decision is to exit, with that decision's status, and never exits when no run decides to |
| Watch.LoopNotifiesConsecutive | src/watch.ts:237-249 | every notification reports two consecutive runs whose stripped outputs differ, older output first |
| Watch.LoopNotificationCommand | src/watch.ts:238-247 | every notification names the watched command, its words joined by spaces |
| Watch.WatchEmailsDiffConsecutiveRuns | src/watch.ts:237-249 | since the loop only ever calls `sendChangeNotification`, every e-mail sent diffs the stripped outputs of two consecutive, differing runs |
| Watch.SentNotification | src/email.ts:95-96 | each message sent during a run of notifications is the one its own notification composes |
| Watch.DisplayOutput | src/watch.ts:275-292 | without `--differences` or a previous run the output is shown as is (stripped unless `--color`); otherwise, split into lines, it is highlightDiffs' display of the previous and current outputs, raw with `--color` and stripped without |
| Watch.SleepMs | src/watch.ts:299-303 | without `--precise` the pause is the interval; with it the pause is never below 0, never shorter than the interval less the run's duration, never above the interval for a non-negative duration, and exactly the interval less the duration when the run was shorter than the interval |
| Watch.PreciseCadence | src/watch.ts:300-303 | with `--precise` a run and its pause together last one interval, or the run's own duration when that is longer |
| Watch.Cleanup | src/watch.ts:172-179 | the first call restores the cursor and the main screen and leaves raw mode; any later call changes nothing, so (`Watch.CleanupOnce`) the restore happens exactly once however many exit paths call it |
| Watch.CleanupOnce | src/watch.ts:171-196 | however many exit paths call cleanup, the cursor and main screen are restored and raw mode is left exactly once |
| Strings.JoinSplit | src/diff.ts:16-31 | joining the pieces of a split with the same separator gives the text back |
| Strings.SplitJoin | src/watch.ts:278-283 | splitting a join of separator-free pieces gives the pieces back |
| Strings.NatToStringRoundTrip | src/email.ts:91 | the decimal numeral of a count reads back as the count |

## Left out

- Running the command (`executeCommand`, `Bun.spawnSync`): each run is an
  input `ExecutionResult`. A null exit status from a killed process is not
  modelled, because the status is an `int`.
- `renderOutput`, `getTerminalSize` and `formatHeader`. They depend on the
  terminal size, the host name and the locale clock.
- All writes to stdout and stderr, including the BEL character and the
  e-mail error line.
- The signal and key handlers, other than the fact that each calls the
  once-only cleanup. The space key's immediate re-run and the 50 ms
  `Bun.sleep` polling loop are not modelled; only the pause's length is.
- `loadConfig` and `saveConfig`, which are file I/O.
- `parseFloat` for the interval. It is a function parameter of
  `Config.ResolveOptions`, as is the `RESEND_API_KEY` environment variable.
- Floating-point rounding. Durations are exact decimals, so `0.5s` is
  exactly 500 ms.
- `generateDiff` and the `diff` library's `createPatch`. They are an opaque
  function parameter, so an exception thrown from them is not modelled.
- The mail transport. It is an input outcome per send.
- Interleavings of the notification calls, which the loop does not await.
  The engine sets `lastEmailSentAt` after an `await`. Each engine call is
  modelled as one atomic step.
- A `--chgexit` exit ending the process before the notification it just
  started has gone out.
- `src/index.ts`: the command-line wiring and its two validity checks. Its
  defaults (`"2"` for the interval, `"1m"` for the cooldown) reach
  `resolveOptions` as flags and so override the configuration file's
  defaults; the model takes the flags as given.
- The HTML template's `.trim()`. It is modelled as removing the template's
  leading newline, which holds because the footer ends in a non-space.
- UTF-16 surrogate pairs. A character outside the Basic Multilingual Plane
  is one `char` of width 1 in the model, whereas `truncateLine` counts its
  two code units as two columns and can cut between them.
