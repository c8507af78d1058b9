# nagios-dnsblklist in Dafny

A model of the core of nagios-dnsblklist, a Nagios plugin that checks whether
an IPv4 address is listed on DNS blacklists. The `check` command validates
its argument and reverses the address into a DNS query prefix. It then
starts one probe per blacklist server and runs a loop that collects the
probes' reports. The loop exits with a Nagios status: 0 OK, 1 WARNING,
2 CRITICAL, 3 UNKNOWN. The project also models the log formatter that
renders a log entry as a Nagios status line.

Modules, in dependency order:

- `Wrappers`: `Option`.
- `Decimal`: decimal text of integers, the rendering that `strconv` and
  `%d` use, with its parser and round-trip lemmas.
- `Separated`: splitting text at a separator character and joining with
  it (`strings.Split`), with both round trips. Addresses and query names
  use '.'. The record list in a CRITICAL message uses ' '.
- `Status`: the four exit codes of cmd/root.go.
- `IPv4Address`: four-octet addresses and their dotted-quad text.
- `Probe`:
  - argument validation (`isIPInputValid`);
  - reversal of the address (`reverseIPString`);
  - the query name;
  - classification of one lookup outcome (`checkIPAgainstBlacklistDomain`
    without the lookup and the channel).
- `Decision`: the `for { select { … } }` loop as a state machine over a
  counter of pending probes.
  - Each iteration consumes one `Event`: a report, the timer, or the
    `default` branch when no channel is ready.
  - `Loop` folds `Next` over any sequence of events.
  - `RunLoop` is the loop written imperatively.
  - Every property holds for every order of events, so the scheduling
    choices of `select` are covered.
- `Check`: the whole command.
  - Servers and their lookup outcomes produce reports.
  - A schedule says what `select` serves in each iteration: which server's
    report, the timer, or nothing.
  - Well-formed schedules serve each server's report at most once and the
    timer at most once.
- `Nagios`: the plain and the coloured formatter of logger/nagios.go. Each
  has a pure definition of the line and a method that builds it the way
  the source appends to its buffer.

The help text of the command (cmd/check.go:42-46) promises exit 0 for
"not blacklisted" and 3 for an unknown error. Where the code does
otherwise, the model follows the code:

- **Unclassified lookups.** A lookup that succeeds is reported CRITICAL
  (listed). So is a lookup that fails with an error that is not a DNS
  error. Neither is reported as an unknown error (3).
- **The `pending <= 1` test.** The loop reports OK while one probe is still
  pending. So with one server that lists the address, the command can exit
  0 before that server's report arrives. `Check.ListedAddressCanExitOk`
  exhibits this. `Check.ExitOkLeavesAtMostOneUnconfirmed` and
  `Check.RunExitOkLeavesAtMostOneUnconfirmed` bound it: an exit 0 has at
  least n - 1 servers confirming the address is not listed.

Behaviour of the code worth knowing, which the help text does not cover
and the model keeps:

- **Empty server list.** The loop exits 0 at its first idle iteration,
  because the test is `pending <= 1`.
- **Unknown return codes.** A report whose return code is not one of the
  four statuses leaves the counter unchanged, because the `switch` has no
  `default` case.

Log lines are modelled without the timestamp and the trailing newline.
`log.Println("Warning: ", m)` writes its two operands separated by a space,
so the line is `"Warning:  " + m`, with two spaces.

## Model

| member | source | states |
|---|---|---|
| Decimal.IntRoundTrip | logger/nagios.go:150-159 | The decimal text of every integer parses back to that integer. |
| Decimal.NatToDecimalOfParse | logger/nagios.go:160-169 | Every canonical digit string is the decimal text of the number it denotes, so unsigned rendering is onto the canonical strings. |
| Decimal.ParseNatToDecimal | logger/nagios.go:160-169 | Parsing the decimal text of a natural number gives the number back. |
| Decimal.NatToDecimalInjective | cmd/check.go:127 | Distinct numbers have distinct decimal texts. |
| Decimal.NatToDecimal | logger/nagios.go:160-169 | The text is non-empty, all digits, without a leading zero, and contains no dot or minus sign. |
| Decimal.IntToDecimal | logger/nagios.go:150-159 | The text starts with '-' exactly for negative numbers, and the digits after the sign are canonical. |
| Separated.Split | cmd/check.go:127 | Splitting at a separator gives one more part than there are separators, and no part contains the separator. |
| Separated.SplitJoin | cmd/check.go:127 | Joining separator-free parts and splitting the result gives the parts back. |
| Separated.JoinSplit | cmd/check.go:127 | Splitting a text and joining the parts gives the text back. |
| Separated.SplitJoinThen | cmd/check.go:139 | Joining parts and appending a separator and a suffix splits into the parts followed by the suffix's parts. |
| IPv4Address.ToString | cmd/check.go:127 | The dotted-quad text of an address splits at dots into its four decimal octets and has exactly three dots. |
| IPv4Address.ToStringInjective | cmd/check.go:127 | Distinct addresses have distinct dotted-quad texts. |
| IPv4Address.Reversed | cmd/check.go:126-136 | The reversed address's components are the original components in the opposite order. |
| IPv4Address.ReversedTwice | cmd/check.go:126-136 | Reversing an address twice gives it back. |
| Probe.IsIPInputValid | cmd/check.go:115-124 | The result is OK exactly when there is an argument and it parses as IPv4, and then the address is the parsed one. Otherwise the result is WARNING with no address. |
| Probe.ReverseComponents | cmd/check.go:126-136 | The result splits into the first four components of the input in reverse order and has three dots. |
| Probe.ReverseIPString | cmd/check.go:126-136 | The result is the text of the reversed address, and its components are the address's octets in reverse order. |
| Probe.ReverseComponentsTwice | cmd/check.go:126-136 | Reversing the components of a four-component text twice gives the text back. |
| Probe.ReverseIPStringTwice | cmd/check.go:126-136 | Reversing a reversed address's text restores the address's text, and reversing the reversed address gives the original text. |
| Probe.QueryNameLabels | cmd/check.go:139 | The labels of the query name are the four octets in reverse order followed by the labels of the domain (section 2.1 of RFC 5782). |
| Probe.RenderRecords | cmd/check.go:168-173 | The rendered record list is bracketed; an empty list renders as "[]". For records without spaces, the text between the brackets splits at spaces back into the records. |
| Probe.Classify | cmd/check.go:138-176 | The code is a status. OK exactly when the lookup failed with "no such host" and no records. WARNING exactly for other DNS timeouts. UNKNOWN exactly for other temporary DNS failures. CRITICAL otherwise. Each message names the reversed address and domain, or carries the error text. The CRITICAL message ends with the rendered records. |
| Probe.SuccessfulLookupIsCritical | cmd/check.go:165-175 | A lookup that returned without error is classified CRITICAL. |
| Probe.OtherErrorIsCritical | cmd/check.go:141-175 | An error that is not a DNS error is classified CRITICAL. |
| Probe.ClassifyPriority | cmd/check.go:143-157 | "No such host" with no records wins over the timeout and temporary flags, and the timeout flag wins over the temporary flag. |
| Decision.Next | cmd/check.go:73-101 | One iteration exits exactly on a WARNING, CRITICAL or UNKNOWN report, on the timer, or when idle with at most one pending probe. The exit code is OK exactly when idle, and a report's exit code is its status with CRITICAL turned into WARNING under suppression. The logged line ends with the report's message; the timer logs the pending count. Continuing decrements the counter exactly on an OK report. |
| Decision.Loop | cmd/check.go:72-102 | An exit consumes between one and all of the events, and its code is a Nagios status. |
| Decision.WaitingIffQuiet | cmd/check.go:62-102 | The loop keeps waiting exactly when no event ended it, and the counter is then the number of servers minus the OK reports. |
| Decision.ExitIsFinal | cmd/check.go:72-102 | Once the loop has exited, further events do not change the verdict. |
| Decision.ExitAt | cmd/check.go:72-102 | If the first k - 1 events keep the loop waiting and event k ends it, the verdict is that event's exit, after k events. |
| Decision.ExitedAt | cmd/check.go:72-102 | Every exit happens that way: the events before it kept the loop waiting, and the last one consumed produced the exit. |
| Decision.StepAfterQuiet | cmd/check.go:72-102 | After events that kept the loop waiting, the next event acts on the counter reached so far. |
| Decision.QuietNotDecisive | cmd/check.go:75-95 | No event among those that kept the loop waiting is a decisive report or the timer. |
| Decision.ExitOkMeansDrained | cmd/check.go:90-100 | Exit 0 happens only at an idle iteration, after at least n - 1 OK reports, with the OK message, and with no decisive event consumed. |
| Decision.SuppressedNeverCritical | cmd/check.go:82-89 | With suppression on, the loop never exits CRITICAL. |
| Decision.FirstBadReportDecides | cmd/check.go:75-89 | The first WARNING, CRITICAL or UNKNOWN report ends the loop at once. It exits with that status (CRITICAL becomes WARNING under suppression), and the logged line ends with the report's message. |
| Decision.TimeoutReportsPending | cmd/check.go:93-95 | The timer ends the loop with WARNING and a message naming the probes still pending. |
| Decision.IdleExitsIffDrained | cmd/check.go:96-100 | An idle iteration exits 0 exactly when at most one probe is pending, and otherwise leaves the counter unchanged. |
| Decision.SmallListExitsAtFirstIdle | cmd/check.go:62-100 | With at most one server, including none, a first idle iteration exits 0. |
| Decision.OkReportsThenIdle | cmd/check.go:90-100 | At least n - 1 OK reports followed by an idle iteration exit 0. |
| Decision.AllOkQuiet | cmd/check.go:90-91 | A run of OK reports keeps the loop waiting and counts each report. |
| Decision.RunLoop | cmd/check.go:72-102 | The imperative loop computes the verdict that Loop defines. |
| Check.Reports | cmd/check.go:64-70 | There is one report per server, and each carries a Nagios status. A server's report is OK exactly when its lookup found the address not listed. A server whose lookup succeeded reports CRITICAL. |
| Check.Events | cmd/check.go:73-96 | An event is the timer exactly when the schedule serves the timer, and idle exactly when it serves nothing. It is an OK report exactly when the schedule serves a server whose report is OK. It is decisive exactly when the schedule serves the timer, or a server reporting WARNING, CRITICAL or UNKNOWN. |
| Check.Run | cmd/check.go:47-103 | Exits carry a status. The command exits without consuming an event exactly when validation fails, and then exits UNKNOWN with the invalid-input message. |
| Check.InvalidInputExitsUnknown | cmd/check.go:48-52 | A missing or non-IPv4 argument validates as WARNING, yet the command exits UNKNOWN. |
| Check.DeliveredOk | cmd/check.go:74-91 | Every server in the set sent an OK report that the schedule served. |
| Check.CountOkStep | cmd/check.go:74-91 | Serving one more arrival adds one to the loop's OK count exactly when it serves an OK report. |
| Check.DeliveredOkStep | cmd/check.go:74-91 | Serving one more OK report adds its server to the served OK servers, and when no report is served twice that server is new. |
| Check.CountOkIsServers | cmd/check.go:74-91 | When no report is served twice, the loop's count of OK reports equals the number of servers that sent them. |
| Check.DeliveredOkAreNotListed | cmd/check.go:143-151 | Servers whose OK report was served found the address not listed. |
| Check.ExitOkLeavesAtMostOneUnconfirmed | cmd/check.go:62-100 | Under a well-formed schedule, exit 0 implies that at least n - 1 servers found the address not listed. |
| Check.RunExitOkLeavesAtMostOneUnconfirmed | cmd/check.go:47-103 | For the command as a whole, under a well-formed schedule, exit 0 implies that at least n - 1 servers found the address not listed. |
| Check.ListedAddressCanExitOk | cmd/check.go:96-100 | With one server that lists the address, an idle iteration before its report exits 0. |
| Check.AllNotListedExitsOk | cmd/check.go:90-100 | When no server lists the address, serving at least n - 1 reports and then an idle iteration exits 0. |
| Check.ListedServerDecides | cmd/check.go:82-89 | A listing server's report, served while the loop waits, ends it at that iteration with CRITICAL, or WARNING under suppression. |
| Nagios.Label | logger/nagios.go:125-136 | INFO, WARN, ERROR and ALERT are labelled OK, WARNING, CRITICAL and UNKNOWN respectively, each in both directions; every other level is labelled with its own name. |
| Nagios.LabelInjective | logger/nagios.go:125-136 | The label determines the level. |
| Nagios.Render | logger/nagios.go:147-174 | Strings are written verbatim. Signed and unsigned integers are written in decimal text that parses back to the value. Booleans are written "true" or "false". Other values use their %v text. |
| Nagios.FormatPlain | logger/nagios.go:122-180 | The line starts with the label and a space, and ends with a newline. |
| Nagios.FieldsTextAppend | logger/nagios.go:142-175 | The text of concatenated field lists is the concatenation of their texts. |
| Nagios.FieldsTextOrder | logger/nagios.go:142-175 | Each field contributes exactly its own " key=value" segment, after those of the fields before it. |
| Nagios.FieldsTextNoNewline | logger/nagios.go:142-175 | Keys and values without line breaks give field text without line breaks. |
| Nagios.PlainLineHasOneNewline | logger/nagios.go:122-180 | For an entry whose message, keys and values have no line break, the only line break is the final one. |
| Nagios.FormatColor | logger/nagios.go:55-119 | The coloured line starts with the colour, the label, the reset sequence, a space and the message, and ends with a newline. |
| Nagios.ColorFieldsWithoutEscapes | logger/nagios.go:79-114 | With empty colour and reset sequences, the coloured fields are the plain fields. |
| Nagios.ColorFieldsTextAppend | logger/nagios.go:79-114 | The coloured text of concatenated field lists is the concatenation of their coloured texts. |
| Nagios.ColorFieldsTextOrder | logger/nagios.go:79-114 | Each field contributes exactly a space, its key between the colour and the reset sequence, '=' and its value, after the fields before it. |
| Nagios.ColorWithoutEscapesIsPlain | logger/nagios.go:55-180 | With empty colour and reset sequences, the coloured line equals the plain line. |
| Nagios.AppendFields | logger/nagios.go:142-175 | The field loop appends exactly the fields' text to the buffer. |
| Nagios.FormatPlainInto | logger/nagios.go:122-180 | The plain closure, building the line in its reused buffer, returns the line FormatPlain defines, whatever the buffer held before. |
| Nagios.AppendColorFields | logger/nagios.go:79-114 | The coloured field loop appends exactly the coloured fields' text. |
| Nagios.FormatColorInto | logger/nagios.go:55-119 | The coloured closure returns the line FormatColor defines for the level's colour, whatever the buffer held before. |

The exit codes `Status.OK`, `Status.WARNING`, `Status.CRITICAL` and
`Status.UNKNOWN` are 0, 1, 2 and 3, as in cmd/root.go:98-101.

## Left out

- Goroutines, channels and the timer goroutine are left out. The reports, the timer and the `default` branch become a sequence of events, and `select`'s random choice becomes an arbitrary schedule. Properties are stated for all schedules.
- `net.LookupHost` and `*net.DNSError` are foreign code. A lookup is represented by its outcome: the records, plus the error's `Err` text, `Timeout()`, `Temporary()` and `Error()` text.
- `net.ParseIP(...).To4()` is a parameter `parseV4`, since IP parsing is library code.
- `os.Exit` is represented by an `Exited` verdict. The `log` timestamp and trailing newline are not modelled.
- The cobra/viper command wiring, the flags, the default server list and the configuration file are outside the core. Servers, the suppression flag and the timeout's firing are inputs.
- Nagios.Render: the `%v` text of values of other types is carried as given (`Other(repr)`), because fmt's reflection-based formatting is library code.
- Nagios.FormatColorInto: the colour sequence per level and the reset sequence are parameters, because their contents belong to the console and ansi libraries.
- Nagios.LevelName: the level names of the logging library (DEBUG, TRACE, INFO, NOTICE, WARN, ERROR, PANIC, ALERT, FATAL) are assumed; the library is not part of this model.
- Integer field values are unbounded. The int64/uint64 widths bound the values the source can receive, but do not change how they are rendered.
- Text is `seq<char>` rather than bytes; every literal involved is ASCII.
- The formatter returns the slice that aliases its reused buffer. The model returns a fresh value.
- The choice between the two closures on `c.DisplayColor()` (logger/nagios.go:51) belongs to the console configuration; both closures are modelled, and a caller picks one.
