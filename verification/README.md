# KAnalytics: a Dafny model of the export scheduler and its data sources

KAnalytics is a KDE telemetry collector. A kded module (`KAnalyticsService`)
asks the user once for consent and keeps the answer in the `kanalytics`
configuration file. With consent it periodically posts a JSON snapshot of
hardware, system and KDE facts to a collection server. The snapshot is keyed
by a per-installation UUID. A console tool (`kanalytics-console`) dumps the
same facts.

This project models the logic of that system in Dafny and proves properties of it:

- `service.dfy` (module `Service`) covers the kded service as an immutable
  record: version, Summary, configuration map, timestamp, approval flag, the
  single timer, whether the consent dialog is open, requests in flight and an
  ordered event log. The slots `exportData`, `replyFinished` and the timer
  timeout are transition functions. `init` is two of them: the consent dialog
  runs a nested event loop, so `Init` ends when the dialog opens and `Decide`
  handles its answer. `Run` folds a sequence of delivered events over them,
  and builds the provider objects afresh for every event that takes a
  snapshot.
- `summary.dfy` (module `Summary`) covers the UUID read-or-create against
  `General/uuid` and the snapshot's key structure.
- `system.dfy` (module `System`) covers the `/etc/os-release` parser,
  `setVar`, the `VERSION_ID`/`VERSION` preference, the Linux-only
  distribution fields and the JSON object.
- `hardware.dfy` (module `Hardware`) covers drive classification (a fold that
  only ever raises two flags), first-CPU selection, `architecture`,
  `totalRam` and the JSON object.
- `cli.dfy` (module `Cli`) covers the console tool's dispatch from options
  to action and exit code.
- `text.dfy`, `config.dfy`, `json.dfy` and `wrappers.dfy` hold the QString
  operations (split, join, trim, remove, case-insensitive contains), the
  typed configuration store, the JSON value type and `Option`.

The model keeps the source's behaviour where it differs from an idealised
scheduler:

- `exportData` has no in-flight guard and no approval check, and it does not
  cancel the pending timer (`NoInFlightGuard`).
- A failed reply re-arms the timer for a full week.
- Once init arms the resume interval, the repeating timer keeps that period
  until a reply restarts it with `ONE_WEEK`.
- Events delivered while the consent dialog is open are handled at once. A
  reply handled then arms the weekly timer, and a later "No" does not disarm
  it (`RefusalDuringDialogKeepsTimer`).
- The resume interval in `init` is computed exactly as written (see Findings).

Inputs stand in for everything the code asks its environment:

- the clock, in epoch seconds;
- the calendar day count `daysTo`;
- the consent dialog's answer;
- the reply's error code;
- the text of a generated `QUuid`;
- the result of `KShell::splitArgs`;
- uname, sysinfo, Solid device lists, hostname1, the screen and the KDE
  provider's object;
- the JSON encoder.

## Model

| member | source | states |
|---|---|---|
| `Service.Create` | kded/service.cpp:41-45 | a new service has no approval, no timer, no open dialog, no timestamp and an empty log; the Summary member has left `General/uuid` in the configuration and kept every other entry |
| `Service.Init` | kded/service.cpp:51-86 | init writes nothing; the consent dialog opens, and is logged as asked, iff `UserApproval` is absent; the approval flag is the stored boolean; the timestamp is the stored one; a timer is armed only with approval and fires within `ONE_WEEK`; at most one request is posted, and only with approval; the log only grows; the post/finish balance is kept |
| `Service.Decide` | kded/service.cpp:86-99 | the answer is stored under `UserApproval` and synced; "Yes" sets the approval flag and posts once, "No" posts nothing and leaves the flag; the timer and the timestamp are untouched |
| `Service.InitExportsWhenDue` | kded/service.cpp:68-72 | with approval and no timestamp or more than 7 days elapsed, exactly one request is posted, no timer is armed and nothing is written |
| `Service.InitSchedulesWhenNotDue` | kded/service.cpp:73-77 | with approval and at most 7 days elapsed, nothing is posted or written and the timer is armed with the as-written interval, which lies in [0, ONE_WEEK] |
| `Service.InitRefusedStaysQuiet` | kded/service.cpp:67-78 | a stored `UserApproval=false` gives no approval, no post, no timer, no dialog and no write |
| `Service.InitAsksWhenUndecided` | kded/service.cpp:78-99 | an absent key makes init open the dialog and write nothing; an answer with nothing delivered in between is stored and synced, in that order, and a yes then posts once while a no posts nothing |
| `Service.Settled` | kded/service.cpp:66-99 | once init and any dialog it opened are done, `UserApproval` is stored and the approval flag equals the stored boolean |
| `Service.ConsentAskedOnce` | kded/service.cpp:78-99 | a service re-created on the configuration saved by any answered init never opens the dialog again and keeps the same approval |
| `Service.RefusalDuringDialogKeepsTimer` | kded/service.cpp:86-146 | an exportData call and its successful reply handled while the dialog is open arm the weekly timer; a "No" afterwards stores the refusal, leaves the flag false and the timer armed, and the next timeout posts again |
| `Service.ResumeInterval` | kded/service.cpp:73-77 | the interval from the 32-bit unsigned expression, after the `qMin` clamp, never exceeds `ONE_WEEK` |
| `Service.IntendedResumeInterval` | kded/service.cpp:74-76 | the corrected interval: the timer fires exactly `ONE_WEEK` after the last export when that lies ahead, and at once when it has passed |
| `Service.ResumeIntervalIgnoresLastExport` | kded/service.cpp:74 | six days after an export at 1400000000 the as-written interval is 405076992 ms; the intended one is 86400000 ms |
| `Service.ExportData` | kded/service.cpp:123-132 | appends exactly one POST to the export URL with content type `application/json`, content length equal to the body size and user agent `KAnalytics/<version>`; increments the in-flight count and changes nothing else |
| `Service.ExportCarriesSnapshot` | kded/service.cpp:125-131 | the posted body is the encoded snapshot of provider objects built from the environment; the snapshot has the four summary keys, its `uuid` is the service's UUID, the hardware and system objects have their full key sets and report that environment's drive flags and distribution name, and `KDE` is the KDE object |
| `Service.ExportIgnoresApprovalAndInFlight` | kded/service.h:67-74 | the posted request does not depend on the approval flag, the in-flight count or the timer |
| `Service.NoInFlightGuard` | kded/service.cpp:123-132 | calling exportData while a request is in flight posts a second one |
| `Service.ReplyFinished` | kded/service.cpp:134-148 | with error code 0 it sets the timestamp to now, writes `Timestamp` and `LastSeenPlasmaVersion`, then syncs; on any error the timestamp and configuration stay unchanged; either way the timer restarts with `ONE_WEEK` and exactly one `exportFinished` carrying the code is emitted last |
| `Service.FirstExportSucceeds` | kded/service.cpp:137-146 | from a fresh approved service with no timestamp at T0, one post goes out; its successful reply makes `timestamp()` equal T0, arms the timer for T0 plus a week, and logs sync then `exportFinished(0)` |
| `Service.FailureKeepsScheduleAndState` | kded/service.cpp:137-145 | a failed reply leaves `timestamp()` and the configuration unchanged, performs no sync and still waits a full week |
| `Service.Timeout` | kded/service.cpp:56-58 | every timeout posts exactly one request, keeps the repeating timer's period and changes neither configuration, timestamp, approval, Summary member nor version |
| `Service.RunKeepsBalance` | kded/service.cpp:123-146 | along any sequence of delivered events, every posted request is in flight or has had exactly one `exportFinished`, so there are never more finishes than posts |
| `Service.RunKeepsUuid` | src/summary.cpp:54-57 | no delivered event changes `uuid()` or `version()`: both return the values fixed at construction for the service's whole lifetime |
| `Service.ApprovalOnlyFromInit` | kded/service.cpp:42-121 | no event other than init and the dialog's answer changes the approval flag, and none removes a configuration key |
| `Service.Timestamp` | kded/service.cpp:113-116 | `timestamp()` is a 32-bit value: the stored seconds when they fit, and `(uint)-1` for an invalid date-time |
| `Service.Gather` | src/summary.cpp:64-66 | the provider objects, which every delivered event that takes a snapshot builds afresh, are the hardware and system objects with their full key sets, plus the KDE object |
| `Summary.Load` | src/summary.cpp:35-48 | an existing `General/uuid` is adopted with the store untouched; otherwise the generated text with every `{` and `}` removed, the rest in order, becomes the UUID and is written under that key; either way the key exists afterwards and equals `userUuid()` |
| `Summary.LoadIdempotent` | src/summary.cpp:39-47 | constructing twice with no write in between gives the same UUID and the second construction writes nothing |
| `Summary.GeneratedUuidKeepsDigits` | src/summary.cpp:45 | the new UUID keeps every character of the QUuid text except `{` and `}`, and its length drops by exactly the number of braces |
| `Summary.BracedUuidUnwrapped` | src/summary.cpp:45 | for QUuid text `{inner}` with no brace inside, the UUID adopted and written is exactly `inner` |
| `Summary.ToJson` | src/summary.cpp:59-69 | the snapshot is an object with exactly the keys `uuid`, `hardware`, `system` and `KDE`, and `uuid` is `userUuid()` |
| `Text.Split` | src/system.cpp:65-67 | splitting yields one more piece than there are separators, and no piece contains the separator |
| `Text.JoinSplit` | src/system.cpp:65 | the split pieces joined with the separator give the line back |
| `Text.SplitJoin` | src/system.cpp:41 | splitting a join of separator-free words gives the words back |
| `Text.SplitAround` | src/system.cpp:41 | one separator between two texts splits into the pieces of the left text followed by those of the right |
| `Text.SplitJoinEach` | src/system.cpp:41 | splitting a join of any words gives the pieces of every word, in order |
| `Text.JoinLength` | src/system.cpp:41 | a join is as long as its words plus one separator between neighbours |
| `Text.Trim` | src/system.cpp:72 | the trimmed value is an infix of the raw value; everything removed is whitespace, and what is kept neither starts nor ends with whitespace |
| `Text.TrimIdempotent` | src/system.cpp:72 | trimming twice is trimming once |
| `Text.Remove` | src/summary.cpp:45 | the removed character no longer occurs, every other character is kept as often as it occurred, and the length drops by the number of occurrences |
| `Text.RemoveAppend` | src/summary.cpp:45 | removal works piecewise over a concatenation, so the kept characters stay in their order |
| `Text.RemoveAbsent` | src/summary.cpp:45 | a text without the character is left unchanged |
| `System.EntryShape` | src/system.cpp:60-72 | a line is used iff it is not a comment and holds exactly one `=`; then it reads `key=raw`, and the value is the trimmed raw text while the key is kept untrimmed |
| `System.ParseKeys` | src/system.cpp:57-73 | a key is in the parsed map iff some usable line assigns it |
| `System.ParseLastWins` | src/system.cpp:72 | a key maps to the trimmed value of the last line assigning it |
| `System.LastAssignmentParsed` | src/system.cpp:57-73 | conversely, the value of the last line assigning a key is the value parsed for that key |
| `System.EntryOfAssignment` | src/system.cpp:60-72 | a non-comment line `key=raw` with no other `=` assigns the untrimmed key the trimmed raw value |
| `System.LaterLineWins` | src/system.cpp:72 | an appended line `key=raw` overrides every earlier line for that key, with the trimmed value |
| `System.CommentLineIgnored` | src/system.cpp:60-63 | inserting a comment line anywhere leaves the parsed map unchanged |
| `System.SetVar` | src/system.cpp:33-42 | a splitArgs error leaves the target unchanged; no words give the empty text; one word, such as a quoted `"Arch Linux"`, is kept whole; several words are joined by single spaces, so splitting the result on spaces gives the pieces of every word in order and its length is the words' total plus one per gap; space-free words are recovered exactly |
| `System.Load` | src/system.cpp:46-82 | the distribution name is setVar of the last `NAME` value, and empty without a `NAME` line; the version is setVar of the last `VERSION_ID` value, or of the last `VERSION` value when no line assigns `VERSION_ID`, and empty when neither is assigned |
| `System.VersionSourceKept` | src/system.cpp:78-81 | with a `VERSION_ID=` line anywhere in the file, appending a `VERSION=` line does not change which value the version is read from |
| `System.VersionFromSource` | src/system.cpp:78-81 | two files with the same version source give the same distribution version |
| `System.VersionIdChosen` | src/system.cpp:78-81 | with a `VERSION_ID=` line followed by no other `VERSION_ID` line, the version is setVar of its trimmed value, wherever `VERSION` lines stand |
| `System.VersionIdPreferred` | src/system.cpp:78-81 | once a `VERSION_ID=` line is present, appending a `VERSION=` line does not change the distribution version |
| `System.OsName` | src/system.cpp:84-90 | the OS name is empty when uname failed |
| `System.OsVersion` | src/system.cpp:92-98 | the OS version is empty when uname failed |
| `System.DistroName` | src/system.cpp:100-107 | the distribution name is exposed when the OS name contains "linux" case-insensitively, and is empty otherwise |
| `System.DistroVersion` | src/system.cpp:109-116 | the distribution version is exposed when the OS name contains "linux" case-insensitively, and is empty otherwise |
| `System.LinuxNameShowsDistro` | src/system.cpp:100-116 | any system name containing "Linux" exposes both distribution fields |
| `System.NoUnameNoDistro` | src/system.cpp:84-116 | when uname fails, both distribution fields are empty whatever the file holds |
| `System.ToJson` | src/system.cpp:123-132 | the object has exactly the keys `osName`, `osVersion`, `distroName`, `distroVersion` and `platformName` |
| `Hardware.Scan` | src/hardware.cpp:175-194 | the flags only rise; `hasSsd` is set iff some hard disk reports rate 0, and `hasHdd` iff some hard disk reports any other rate, including -1 |
| `Hardware.Load` | src/hardware.cpp:44-49 | starting from two false flags, `hasSsd` holds iff some hard disk has rate 0, and `hasHdd` iff some hard disk has a nonzero rate |
| `Hardware.OnlyHardDisksCount` | src/hardware.cpp:178-183 | devices that are not storage drives of type `HardDisk` change no flag |
| `Hardware.OrderIrrelevant` | src/hardware.cpp:175-194 | the flags do not depend on the order of the drive list |
| `Hardware.FirstCpuSelection` | src/hardware.cpp:75-109 | `numCpus` is the list length; model, vendor and speed come from the first CPU alone, and are empty, empty and 0 without CPUs |
| `Hardware.Architecture` | src/hardware.cpp:111-114 | the architecture is 64 iff the pointer size is 8, and 32 otherwise |
| `Hardware.TotalRam` | src/hardware.cpp:116-127 | the result is -1 unless built for Linux with a successful sysinfo call; it always fits a qlonglong, and equals `totalram * mem_unit` when that fits |
| `Hardware.ToJson` | src/hardware.cpp:154-173 | the object has exactly the thirteen keys of `toJson`; `hdd`, `ssd` and `numCpus` carry the flags and the CPU count |
| `Cli.Dispatch` | tools/main.cpp:158-206 | `--uuid` beats everything and returns 1; an empty command or `--commands` shows the list and returns 1; the exit code is 0 iff the command is `export`, or `dump` with subcommand `system`, `hardware`, `kde` or `all` |
| `Cli.JsonOnlySelectsRendering` | tools/main.cpp:177-198 | flipping `--json` keeps the exit code and the action, apart from the rendering flag of a dump |
| `Cli.DumpSections` | tools/main.cpp:179-198 | each known subcommand dumps its own section; a missing or unknown one is rejected with exit code 1 |

## Left out

- Network I/O: a post is an event in the log. The reply arrives only for a posted request and carries its error code as an input. `reply->deleteLater()` has no counterpart.
- The consent dialog: its answer is a boolean input; the dialog text and i18n are not modelled.
- Calendar arithmetic: `QDateTime::daysTo` is the input `daysSinceStamp`. Time has second resolution; the millisecond part of `QDateTime` is dropped.
- QTimer internals: the timer is one optional (deadline, period), replaced on every `start`. A timeout is only delivered while it is armed and once its deadline (in milliseconds) is reached; the times of successive steps are not required to increase. `VeryCoarseTimer` accuracy is not modelled.
- KConfig: the file is a map of typed values. A `sync` is an event with no durability or failure. The source ignores whether a sync succeeded, so the model does too.
- Service.Init: reading a value stored with another type gives the default. KConfig's string conversions, for example a `UserApproval` written by hand as `yes`, are not modelled.
- QUuid generation and `KShell::splitArgs`: inputs, not interpreted.
- Service.Init: the dialog's nested event loop delivers the modelled steps (D-Bus `exportData`, replies, timeouts) between `Init` and `Decide`; a second `moduleRegistered` is not expected from KDED and is not excluded by the model. Should it arrive, the model's `Init` drops the running timer, whereas the source builds a new QTimer and the old one, still parented and connected to `exportData` (kded/service.cpp:56-58), keeps firing.
- `exportData` delivered before init: the source would post through an uninitialised `m_manager` (kded/service.cpp:131), which is undefined behaviour; the model posts as usual.
- Solid device enumeration, hostname1 `Chassis`, uname `machine`, sysinfo and QScreen: inputs. The screen resolution and size strings are taken already formatted.
- Floating point: `screenDpi` is carried as an opaque real; nothing is computed with it.
- `src/kde.cpp`: pure pass-throughs to Qt and Plasma; the KDE object and the Plasma version are inputs.
- JSON byte serialisation (`QJsonDocument::toJson`): an uninterpreted encoder; only key sets and named values are modelled.
- Text rendering in the `dump*` helpers of `tools/main.cpp`, and `--help`/`--version`, which `QCommandLineParser::process` handles before dispatch.
- The export branch of `tools/main.cpp`: it calls `exportData()` on a `Summary`, which declares no such member. It is the opaque action `Export`, with exit code 0.
- `version()`, `uuid()`, `haveUserApproval()` and `Summary::userUuid()` are field reads with no contract of their own: `KANALYTICS_VERSION` (a build-time value, kept as a field), the Summary's UUID and the approval flag. What they return over a run is stated by `Service.RunKeepsUuid` and `Service.ApprovalOnlyFromInit`.
- System.DistroName: case-insensitive matching folds ASCII letters only; Unicode case folding is not modelled.
- System.DistroVersion: the same ASCII-only folding as `DistroName`.
- Text.Trim: whitespace is the Unicode separators plus U+0009..U+000D and U+0085; this matches `QChar::isSpace` for the characters that occur in os-release files.
- Hardware.TotalRam: assumes a 64-bit `unsigned long` (LP64); the 32-bit wrap-around of other ABIs is not modelled.

## Findings

| source | as written | input that shows it | evidently intended | confidence | as-written member | corrected member |
|---|---|---|---|---|---|---|
| kded/service.cpp:74 | `qMin(ONE_WEEK, ONE_WEEK - now.toTime_t()*1000 - m_timestamp.toTime_t()*1000)` in unsigned 32-bit arithmetic subtracts both epoch values | last export at 1400000000, init at 1400518400 (six days later): the timer is armed for 405076992 ms, about 4.7 days | `ONE_WEEK - (now - timestamp)*1000`, clamped: 86400000 ms, so the next export comes one week after the last one, as the comment on line 76 says | high, not executed | `Service.ResumeInterval` (shown by `Service.ResumeIntervalIgnoresLastExport`) | `Service.IntendedResumeInterval` |

`Service.Init` keeps the as-written `ResumeInterval`. The model describes what the service does, and only this interval differs. `IntendedResumeInterval` carries the corrected behaviour and its proof that the timer fires exactly one week after the last export.
