# Schiphol runway alerts — a Dafny model of the runway watcher and the bot command parser

This project models the core of a Go service that watches which runways of
Amsterdam Schiphol airport are in use and is meant to tell Telegram
subscribers when a runway becomes active or inactive; in this source the
watcher pushes each change onto a channel that nothing reads. It covers three
source files:

- `lvnl/api.go` (module `LvnlApi`, file `api.dfy`): the fixed table of the ten
  runway codes and their names, the five-number request payload, and the two
  extractors that read the active landing and takeoff codes from a usage report.
- `lvnl/service.go` (module `LvnlService`, file `service.dfy`): the watcher's
  table of last-known runway states (class `RunwayService` with a `map` field
  `state` and a `seq` field `changes` standing for the change channel), its
  initialisation from the runway table, and the diff step that applies one
  report and pushes one change for every runway whose active flag flipped.
- `telegram/command.go` (module `TelegramCommand`, file `command.dfy`): the
  active command list, the reply a command builds, and the recognition of a
  `/command` in a message text.

Helpers: `Text` (`text.dfy`) models the parts of Go's `strings` package the
core uses (`Split`, `Join`, ASCII `ToLower`); `Decimal` (`decimal.dfy`) models
`strconv.Itoa` and a parser that reads its output back; `Wrappers`
(`wrappers.dfy`) holds `Option`, used where Go returns `nil`.

The diff step is specified by the function `NextState` (each entry moves by
`NextRunway`) and the predicate `EmitsExactly` (one emitted value per flipped
code, each equal to its new entry). The loop that visits the codes
(`DiffState`) is proved against both; the class method `UpdateState` stores
its results. Go visits map keys in an unspecified order, so both loops pick the
next key with a nondeterministic choice, and the emitted changes are stated as
set and cardinality facts rather than as one fixed order.

Facts about the code that the model keeps:

- On a transport error `GetRunwayUsage` ends the process (`log.Fatal`,
  lvnl/api.go:110-112). It ignores the error of `json.Unmarshal`
  (lvnl/api.go:116), so a malformed body yields the zero report, whose slots
  are all empty; `EmptyReportDeactivatesAll` shows that such a report switches
  every runway off (and `UpdateState` then emits a change for each runway that
  was active).
- The changes of one tick come in Go's unspecified map iteration order.
- A change is the updated `Runway` value itself.
- The initial direction is takeoff (`false`), and deactivation resets the
  direction to takeoff, so an inactive runway always carries the takeoff
  direction; `MatchesRunwayTable` includes that invariant (`InactiveIsTakeoff`)
  and the diff step keeps it.

## Model

| member | source | states |
|---|---|---|
| `LvnlApi.RunwayTableShape` | lvnl/api.go:16-27 | the runway table has ten distinct codes and every runway name belongs to exactly two codes |
| `LvnlApi.GetActiveLandingRunways` | lvnl/api.go:59-74 | the result is exactly the non-empty values among Landing1, Landing2, Landing3, in that order (the reference filter `NonEmpty`); at most three, none empty |
| `LvnlApi.GetActiveTakeoffRunways` | lvnl/api.go:79-94 | the result is exactly the non-empty values among Takeoff1, Takeoff2, Takeoff3, in that order; at most three, none empty |
| `LvnlApi.PayloadShape` | lvnl/api.go:99-106 | the payload starts with `[`, ends with `]`, and what lies between splits at its commas into exactly the five decimal numerals of year, month, day, hour and minute, in that order |
| `LvnlApi.PayloadRoundTrip` | lvnl/api.go:99-106 | parsing the payload back gives the original request, so no two requests share a payload |
| `Decimal.Itoa` | lvnl/api.go:100-104 | the numeral is non-empty, made of digits with a leading minus sign exactly for negative numbers, and contains no comma |
| `Decimal.NatToDecimalRoundTrip` | lvnl/api.go:100-104 | the digits of a natural number denote that number |
| `Decimal.ItoaRoundTrip` | lvnl/api.go:100-104 | parsing the decimal rendering of any integer gives that integer back |
| `Text.SplitJoin` | lvnl/api.go:106 | joining parts that contain no separator and splitting the result at the separator gives the parts back |
| `Text.SplitFirstPiece` | telegram/command.go:56-57 | the first piece of a split is the longest separator-free prefix: followed by the separator unless it is the whole text |
| `Text.ToLower` | telegram/command.go:55 | lowercasing keeps the length and maps every character through ASCII lowercasing |
| `LvnlService.StrArrContains` | lvnl/service.go:144-152 | the search returns true exactly when the needle occurs in the haystack |
| `LvnlService.AllActive` | lvnl/service.go:116-118 | a code is listed exactly when it is among the takeoff codes or the landing codes |
| `LvnlService.NextState` | lvnl/service.go:121-141 | the diff step keeps the key set: it neither adds codes from the report nor drops codes |
| `LvnlService.RunwayService.constructor` | lvnl/service.go:24-25 | before initialisation the table is empty and nothing has been pushed |
| `LvnlService.RunwayService.IsActive` | lvnl/service.go:27-34 | true exactly when the runway's code is in the table with an active entry; false for an unknown code |
| `LvnlService.RunwayService.InitiateState` | lvnl/service.go:100-112 | the table's keys are exactly the runway table's codes, each entry has its code, the table's name, inactive and the takeoff direction |
| `LvnlService.DiffState` | lvnl/service.go:114-142 | the updated table is `NextState` of the old one for the report, stays keyed by code, and the emitted values are exactly one per runway whose active flag flipped, each equal to its new entry |
| `LvnlService.RunwayService.UpdateState` | lvnl/service.go:114-142 | the new table is `NextState` of the old one, the well-formed table invariant is kept, earlier changes stay as they were and the newly pushed ones are exactly one per flipped runway, each its new entry |
| `LvnlService.NextStateFollowsReport` | lvnl/service.go:116-141 | after the step a runway is active exactly when its code is among the report's takeoff or landing codes |
| `LvnlService.ActivatedRunway` | lvnl/service.go:123-130 | a runway that becomes active keeps its code and name and gets the landing direction exactly when its code is in the landing list |
| `LvnlService.LandingTakesPrecedence` | lvnl/service.go:116-128 | a runway listed both for takeoff and for landing becomes active with the landing direction |
| `LvnlService.DeactivatedRunway` | lvnl/service.go:131-139 | a runway that stops being active becomes inactive with the takeoff direction and keeps the rest of its entry |
| `LvnlService.SteadyRunway` | lvnl/service.go:121-141 | a runway whose membership agrees with its stored flag keeps its whole entry, including an old direction the report may contradict |
| `LvnlService.NextStatePreservesTable` | lvnl/service.go:100-141 | the step keeps the table's codes, names, keying and the rule that inactive runways carry the takeoff direction |
| `LvnlService.NextStateIdempotent` | lvnl/service.go:121-141 | applying the same report a second time changes nothing and leaves no runway flipped |
| `LvnlService.SecondUpdateEmitsNothing` | lvnl/service.go:121-141 | a second update with the same report emits no change |
| `LvnlService.EmptyReportDeactivatesAll` | lvnl/service.go:131-139 | a report with all slots empty leaves every runway inactive with the takeoff direction |
| `LvnlService.Replay` | lvnl/service.go:44-62 | running one step per report keeps the key set |
| `LvnlService.ReplayFollowsLastReport` | lvnl/service.go:44-62 | after any non-empty run of reports, the active flags are exactly those listed by the last report |
| `TelegramCommand.Command.Handle` | telegram/command.go:34-39 | the reply goes to the message's chat, echoes its text and replies to its message id |
| `TelegramCommand.ActiveCommandsNamed` | telegram/command.go:16-21 | no active command has an empty name |
| `TelegramCommand.Candidate` | telegram/command.go:47-57 | there is no candidate exactly when the text is shorter than two characters or does not start with `/` |
| `TelegramCommand.CandidateIsFirstWord` | telegram/command.go:53-57 | the candidate is the lowercased text after the slash up to, not including, the first space |
| `TelegramCommand.FindCommand` | telegram/command.go:59-65 | the result is the first command with the candidate's name, and none exactly when no command has that name |
| `TelegramCommand.IdentifyCommand` | telegram/command.go:46-66 | none exactly when the text is too short, lacks the leading slash, or names no active command; otherwise an active command whose name is the candidate (the first such, via `Identified`) |
| `TelegramCommand.CandidateOfWordAndArgs` | telegram/command.go:53-57 | a word followed by a space and arguments gives the lowercased word as candidate, and so does the word alone |
| `TelegramCommand.CaseAndArgumentsIgnored` | telegram/command.go:53-63 | a word with arguments identifies the same command as the lowercased word alone |
| `TelegramCommand.SubscribeIgnoresCaseAndArguments` | telegram/command.go:46-66 | `/SUBSCRIBE now` and `/subscribe` both identify the subscribe command |
| `TelegramCommand.SlashSpaceIsNoCommand` | telegram/command.go:56-63 | a slash followed directly by a space gives the empty candidate and therefore no command |

## Left out

- The HTTP request in `GetRunwayUsage`, the endpoint configuration, `log.Fatal` and the JSON decoding of the response (lvnl/api.go:108-118): network and library calls. A report is a parameter of `UpdateState`.
- The ticker goroutine and stop channel of `Start` (lvnl/service.go:39-65): timing and concurrency. One tick is one `UpdateState` call; `Replay` models a sequence of ticks. Building the request from the clock is left out; the payload is modelled for any request.
- `PrintState` (lvnl/service.go:68-98): console output.
- The report's `Updated`, `Start`, `End`, `State` and `IsLast` fields, and a message's sender and date: the logic never reads them.
- `SendMessage.Send`, `Respond`, `GetUpdateFromWebhook` (telegram/telegram.go), the webhook handler and router (http/), the subscriber repository (telegram/subscribers.go), db/store.go, config/config.go and main.go: network, database and file access. The source has no consumer of the change channel, so notification fan-out is not part of this model.
- Go's aliasing of the pushed `&tw` pointer, which refers to a reused loop variable: each pushed change is modelled as a value copy.
- `LvnlService.DiffState`: the updated table is built in a local map and `UpdateState` stores it when the loop ends, where Go writes each entry into the shared map as it goes; nothing reads the table in between in the model, since concurrent readers are not modelled.
- `Text.ToLower`: lowercases ASCII letters only; Go's `strings.ToLower` also folds non-ASCII letters. A Dafny `char` stands for one byte, so lengths agree with Go's byte lengths for ASCII text only.
- `Decimal.Itoa`: integers are unbounded; Go's `int` is at least 32 bits wide, still far beyond any date or time field.
