# Verified model of the CPE management daemon

The daemon keeps connections to Huawei routers (CPEs), polls them, mirrors their SMS
inbox into SQLite, records signal and traffic history and serves all of it on a
loopback HTTP API. This project models the parts in which the difficulty lies and
proves what they promise. The SDK, the clock and the SQL engine are an environment
that may answer anything the code has to cope with.

| file | component |
|---|---|
| `DeviceLease.dfy` | the two-lock connection protocol of a device, every critical section a step |
| `SmsSearch.dfy`, `SmsTable.dfy`, `SmsSync.dfy`, `SmsRecovery.dfy` | what a search matches, the sms table, one sync round, repair of failed rounds |
| `SmsMirror.dfy`, `SmsHandlers.dfy` | sync rounds, handlers, arrivals and the phone interleaving; the handlers themselves |
| `PollerLoop.dfy`, `PollCycle.dfy`, `TrafficRate.dfy` | pause and resume, one cycle and its capability matrix, differential rates |
| `UciParser.dfy`, `UciRoundTrip.dfy`, `UciComments.dfy` | the UCI parser, what it makes of printed configurations, and of comments behind lines |
| `DeviceManager.dfy`, `AppReload.dfy` | reconciling the device set, and which device objects the loops hold |
| `History.dfy`, `HistoryStore.dfy` | trend queries; recording, pruning and what pruning may change |
| `CellList.dfy`, `Base64.dfy` | the cell list decoder, base64 (RFC 4648) |
| `LogDecode.dfy`, `LogText.dfy`, `LogEntries.dfy` | log contents and entries, what readable means, printed entries read back |
| `Common.dfy`, `Text.dfy` | shared types, Go's view of strings and numerals |

Protocols are state machines: a `System` (or `Loop`) value, a `Next` function for one
step, and `Run` for a sequence of steps. Code that changes objects is modelled by
classes whose methods are proved to do what a specification function says; the results
about whole runs are lemmas over that function.

## What turned out

The proofs hold for the code as it is. Where a promise is not kept in general, the
exact condition under which it is kept is proved:

- A delete can be undone by a sync round if, and only if, two Device objects hand out
  leases for the same CPE. That happens around a reload that replaces the device:
  `Manager.Update` has already entered the new object while the old syncer may still be
  inserting what it fetched (`SmsMirror.NoPullBackExact`). On the same condition a message
  keeps its one row, and stays read once marked read (`SmsMirror.MessagesKeptExact`).
- A clean sync round repairs every earlier failed one if, and only if, messages that
  share a new index share their content (`SmsRecovery.RecoveryExact`).
- The comment on `Resume` says it polls at once. It does exactly when the loop is in the
  paused wait, was just woken there, or was about to poll anyway; otherwise the token is
  spent without a poll (`PollerLoop.ResumePollsExact`).
- "Not supported" is documented as cached. A refused endpoint is left alone for good in
  every run for exactly four of the thirteen requests of a cycle: signal, network, plmn and
  traffic statistics (`PollCycle.RememberedExact`). Eight of the others are sent again in
  every cycle, and month statistics until traffic statistics is refused
  (`PollCycle.AskedExact`).
- A cycle whose traffic request fails puts the counters at zero, so the next good cycle
  books the whole counter again. As long as the device's counter does not drop, the rates
  of a run add up to what it counted exactly when no miss lets a total be booked twice (`TrafficRate.BookedRightExact`); what
  is booked twice is stated as well (`TrafficRate.AccountedIs`).
- The parser is said to support comments, but behind the fields of a line they are read as
  more fields. Behind an option or list line a comment is harmless exactly when key and
  value are both there (`UciComments.OptionWithComment`, `ListWithComment`): an empty value
  takes the comment's first word, so the password of the default configuration becomes `#`
  (`UciComments.DefaultPassword`). Behind a config line with type and name any comment makes
  the whole file unreadable (`UciComments.HeadCommentFatal`). For whole files the exact
  condition is `UciComments.CommentedFileExact`.
- `option k ''` without a comment is an error (`UciRoundTrip.RoundTripExact`). A line
  `list`, alone or with one ASCII character after it, makes the parser slice past its end
  (`UciRoundTrip.CrashExact`).
- A device with an empty host is replaced at every reload
  (`DeviceManager.QuietAgainExact`). A device that a reload keeps loses the default user
  name, because only `New` fills it in; repeated sections for one id can take it away
  within one reload (`DeviceManager.DefaultUserExact`). So updating twice with the same
  sections is the same as once only if every id names a user or had its device kept by its
  last section (`DeviceManager.IdempotentExact`).
- Repeated ids at start-up leave an open device behind that no later update closes
  (`DeviceManager.OwnedExact`). The loops are on the right devices all the same
  (`AppReload.StartLive`, `AppReload.LoopsStayLive`).
- Flipping only `enabled` flags at a reload starts and stops no poller: the pollers are
  those enabled at the last reload that reported a change (`AppReload.PollersOverRuns`).
- A search of the SMS list is a substring search exactly when it contains no `%` and no
  `_`; the comment leaves escaping to the caller, and the caller does none
  (`SmsSearch.SearchExact`).
- A raw series keeps the oldest 7200 rows of its window, not the newest, so a `d1`
  traffic chart polled more often than every 12 s lacks its latest hours
  (`History.RawExact`).
- The default retention of 30 days is the least at which pruning never changes a chart
  (`HistoryStore.RetentionExact`).
- An 8-column cell row is ambiguous; which rows are misread is stated exactly
  (`CellList.RowExact`).
- A closed device can report itself online, after a late health report
  (`DeviceLease.OnlineAfterClose`). Message ids in a URL wrap modulo 2^64
  (`SmsHandlers.ParsedIdAliases`).

## Assumptions

The CPE never reuses an index; a handler loads its row before it takes the lease, as the
code does. Days have 86400 seconds and the clock does not go back past a prune. Rates and
averages are reals. A CPE request that fails may or may not have taken effect, and so may
a local statement; a failed insert statement has none. Text in the UCI parser, the search
and the cell list is valid UTF-8. `lim` in `CellList` is 2^31 or 2^63, by the width of
Go's `int`.

## Model

| member | source | states |
|---|---|---|
| DeviceLease.InvRun | src/internal/device/device.go:156-261 | every interleaving of Lease, Relogin, Close and SetOnline by any number of calls keeps the invariant over all their positions |
| DeviceLease.ConnectionAccounting | src/internal/device/device.go:156-251 | in every reachable state each connection ever dialled is in exactly one place: installed, in the hands of exactly one call, or closed exactly once |
| DeviceLease.AtMostOneInLease | src/internal/device/device.go:150-217 | two calls are never inside the lease together, whether dialling, resetting or working |
| DeviceLease.InstallNeverOverwrites | src/internal/device/device.go:169-201 | a step that installs a connection finds the slot empty and the device open |
| DeviceLease.LeasedClosedOnlyByClose | src/internal/device/device.go:204-251 | while a connection is leased it stays installed until Close, and only the Close call that took it out closes it |
| DeviceLease.ClosedForever | src/internal/device/device.go:231-251 | after Close's critical section no later step ever installs a connection or client |
| DeviceLease.LeaseAfterCloseFails | src/internal/device/device.go:156-217 | a Lease or Relogin that has not passed the closed check by the time of Close can only end with the closed error |
| DeviceLease.DialOvertakenByClose | src/internal/device/device.go:179-201 | a dial that Close overtook closes its own connection once, reports the closed error and frees the lease |
| DeviceLease.ErrorsAreTrue | src/internal/device/device.go:156-217 | in every run who ends with the closed error met a closed device, and who ends with a dial error had its own dial fail |
| DeviceLease.ErrorsAreTold | src/internal/device/device.go:156-217 | a failed dial ends its call with the dial error, a check that finds the device closed with the closed error |
| DeviceLease.HolderFreesLease | src/internal/device/device.go:156-217 | the holder of the lease needs no other call: at most five of its own steps free it, even if every dial fails |
| DeviceLease.ReloginIsFresh | src/internal/device/device.go:204-230 | Relogin never hands out a connection that existed when it took the lease |
| DeviceLease.CloseDisposes | src/internal/device/device.go:231-251 | Close takes the device down in one section and closes the connection it found exactly once |
| DeviceLease.OnlineExact | src/internal/device/device.go:186-261 | what any step does to the online flag: a report decides it, installing a connection sets it, taking it out clears it, nothing else touches it |
| DeviceLease.OnlineAfterClose | src/internal/device/device.go:220-261 | after Close the online flag is the last report or reset that came in, over every run |
| DeviceLease.ClosedYetOnline | src/internal/device/device.go:253-261 | a reachable state that is closed and online |
| DeviceLease.Device.ConnectInstall | src/internal/device/device.go:186-201 | the write section of connect does the protocol step: install, or dispose of the connection when closed |
| DeviceLease.Device.ResetConn | src/internal/device/device.go:220-231 | the section of resetConn that takes connection and client out and clears online |
| DeviceLease.Device.Close | src/internal/device/device.go:234-251 | Close's critical section, idempotent once closed |
| SmsTable.InsertOk | src/internal/db/db.go:119-139 | whatever statement fails, (device, index) and local ids stay unique |
| SmsTable.SmsDb.Store | src/internal/db/db.go:119-139 | the table and the answer after update, insert-or-ignore and the row count, for every failing statement |
| SmsTable.ListSmsExact | src/internal/db/db.go:168-200 | a listing has exactly the rows the query selects, each once, the latest received first and the higher id first among those of one time |
| SmsTable.PlainSearchExact | src/internal/db/db.go:168-200 | a search without wildcards lists exactly the messages in whose number or text it occurs |
| SmsSearch.SearchExact | src/internal/db/db.go:165-182 | a search finds exactly the texts in which it occurs, up to the case of ASCII letters, exactly when it has no percent sign and no underscore |
| SmsTable.CountAgreesWithList | src/internal/db/db.go:168-213 | the unread count is the length of the unread listing without a search |
| SmsTable.SmsDb.MarkSmsRead | src/internal/db/db.go:235-246 | the row with that id and device is read on both counts, with its other columns kept; every other row is unchanged; the answer says whether there was one |
| SmsTable.SmsDb.DeleteSmsLocal | src/internal/db/db.go:249-260 | the row with that id and device goes and exactly the others stay; the answer says whether there was one |
| SmsSync.Syncer.SyncOnce | src/internal/sms/sync.go:117-173 | the table after any round, with failing inserts skipped, the count returned, and when syncing is given up for good: on a permanent lease error, and on an unsupported or permanent fetch error |
| SmsSync.StoreAllMirrors | src/internal/sms/sync.go:144-161 | a round without failures turns the table into the closed form Mirrored, duplicates in the message list included: known rows refreshed, first occurrences of new indices appended with the last status reported |
| SmsSync.RoundCountsNew | src/internal/sms/sync.go:144-165 | such a round returns the number of distinct indices it had not stored before |
| SmsSync.MirroredKnown | src/internal/db/db.go:119-139 | afterwards the stored indices are the earlier ones and the reported ones |
| SmsSync.MirroredStatus | src/internal/db/db.go:119-139 | afterwards every row of the device has the last status reported for it |
| SmsSync.RoundRepeats | src/internal/sms/sync.go:144-165 | repeating the round adds nothing and leaves the table as it is |
| SmsRecovery.RecoveryExact | src/internal/sms/sync.go:144-161 | a clean round makes up for every possible earlier failing round over the same messages, exactly when messages with the same new index have the same body |
| SmsRecovery.ConsistentRecovers | src/internal/sms/sync.go:144-161 | the direction in which the repair succeeds, for every pattern of failed statements |
| SmsMirror.InvNext | src/internal/sms/sync.go:117-165 | each step of rounds, handlers, arrivals and phone actions keeps the invariant, with leases from one Device object |
| SmsMirror.NoPullBackExact | src/internal/httpapi/httpapi.go:477-506 | in every run a message whose delete was answered with success stays out of the table, exactly when at most one Device object hands out leases |
| SmsMirror.TwoObjectsPullBack | src/internal/sms/sync.go:121-162 | for any two Device objects, a run in which a successful delete is undone |
| SmsMirror.OneRowForLife | src/internal/db/db.go:119-139 | with leases from one Device object: what later carries a message's index is the row it was first stored in |
| SmsMirror.RowStaysRead | src/internal/db/db.go:119-139 | over any run, whatever objects hand out leases, a row once marked read is never unread again, whatever status the CPE keeps reporting |
| SmsMirror.ReadIsSticky | src/internal/db/db.go:119-139 | with leases from one Device object: the same of a message, whichever row carries it |
| SmsMirror.MessagesKeptExact | src/internal/db/db.go:119-139 | in every run from the start messages keep their one row, and read ones are never unread again, each exactly when at most one Device object hands out leases |
| SmsMirror.MarkReadMeans | src/internal/httpapi/httpapi.go:436-457 | with leases from one Device object, what a successful mark-read guarantees although the local result is ignored: the row is read, or the message is gone from the CPE and the table |
| SmsHandlers.ParseSmsId | src/internal/httpapi/httpapi.go:510-524 | which texts are accepted, and the accepted value modulo 2^64 |
| SmsHandlers.ParsedIdExact | src/internal/httpapi/httpapi.go:510-524 | corollary: an id names the message it spells exactly when it fits in an int64 |
| SmsHandlers.ParsedIdAliases | src/internal/httpapi/httpapi.go:510-524 | every positive id has a longer spelling that is accepted for it |
| SmsHandlers.Api.Delete | src/internal/httpapi/httpapi.go:461-507 | each status code with its cause; 200 exactly when the request was sent and CPE and statement both reported success, and then the message is gone from inbox and table; after 400, 404, 409 and 503 nothing has changed |
| SmsHandlers.Api.MarkRead | src/internal/httpapi/httpapi.go:412-458 | the same for mark-read: 200 exactly on success of both, and then the row is read and, if still in the inbox, has status 1 there; only the named message and row ever change |
| SmsHandlers.DeleteIsRun | src/internal/httpapi/httpapi.go:461-507 | the handler is an uninterrupted run of the interleaved model: the same inbox and table, and the answer counted there as a successful delete exactly when the handler says 200 |
| SmsHandlers.MarkReadIsRun | src/internal/httpapi/httpapi.go:412-458 | the same for mark-read |
| PollerLoop.NoLostWakeupRun | src/internal/poller/poller.go:215-287 | under any mix of Suspend, Resume, ticks and loop steps a select that waits under an outdated flag finds a token |
| PollerLoop.SuspendBoundsPolls | src/internal/poller/poller.go:215-260 | from setting the flag until a Resume at most one poll starts, and none from the positions that owe none |
| PollerLoop.SuspendBoundMet | src/internal/poller/poller.go:215-260 | from every position that owes one, that poll can happen |
| PollerLoop.SettleActive | src/internal/poller/poller.go:222-250 | with the flag clear the loop by itself reaches the active wait with the channel empty, and how many polls that takes |
| PollerLoop.ResumePollsExact | src/internal/poller/poller.go:222-287 | Resume leads to a poll without a tick exactly from the paused wait, just woken there, or about to poll; never to two |
| PollerLoop.ResumeWithoutPoll | src/internal/poller/poller.go:222-287 | a run from the start in which Resume is followed by no poll |
| PollerLoop.StopExits | src/internal/poller/poller.go:215-260 | from every position a stopped loop can end by at most five steps of its own, with at most the one poll it was committed to |
| PollerLoop.ExitedForever | src/internal/poller/poller.go:215-260 | nothing leaves the exit, and no poll happens there |
| PollerLoop.ExitsOnlyStopped | src/internal/poller/poller.go:215-260 | in every run the loop ends only if it was stopped |
| PollerLoop.Poller.Advance | src/internal/poller/poller.go:215-250 | one step of the loop on flag, ticker, channel and stop, and whether it enters a cycle |
| PollCycle.CapabilityTrace | src/internal/poller/poller.go:334-443 | over any run of cycles and failed connects the matrix is determined by the refusals seen, and after a refusal of signal, network, plmn or traffic no request it rules out is ever sent again |
| PollCycle.CapsOnlyClear | src/internal/poller/poller.go:677-698 | from any matrix, entries only go from true to false |
| PollCycle.CycleInOrder | src/internal/poller/poller.go:334-443 | the requests of a cycle go out in the order of the source, none twice |
| PollCycle.AskedExact | src/internal/poller/poller.go:334-443 | after any run a connected cycle asks for a step exactly when no earlier refusal, in the run or in the cycle, silences it |
| PollCycle.RememberedExact | src/internal/poller/poller.go:334-443 | for each of the thirteen steps: in every run it is never asked again after a refusal, exactly when it is signal, network, plmn or traffic statistics |
| PollCycle.RefusalForgotten | src/internal/poller/poller.go:383-443 | corollary: eight endpoints are asked in every connected cycle, however often they refused |
| PollCycle.SnapshotFlags | src/internal/poller/poller.go:334-456 | a snapshot is online exactly when the CPE reported no other state and no request met a permanent error; it has the error flag exactly when some request failed in a way worth retrying |
| PollCycle.Poller.PollOnce | src/internal/poller/poller.go:319-456 | the requests sent and the snapshot kept, for a failed connect and for every pattern of replies |
| TrafficRate.RateNonNegative | src/internal/poller/poller.go:634-652 | whatever the counters do, no rate is negative |
| TrafficRate.NoOverflow | src/internal/poller/poller.go:634-652 | corollary of the integer width: differences of non-negative int64 totals do not wrap |
| TrafficRate.RatesConserve | src/internal/poller/poller.go:634-652 | over any run the rates times the elapsed times add up to the positive counter increments |
| TrafficRate.TelescopesExact | src/internal/poller/poller.go:634-652 | that sum is at least last minus first, and equal exactly when the counter never drops |
| TrafficRate.MissedRequestsExact | src/internal/poller/poller.go:403-456 | over any run with a counter that never drops, failed connects included, the sum is at least last minus first reading, and equal exactly when every good total before a missed request is zero |
| TrafficRate.AccountedIs | src/internal/poller/poller.go:403-456 | for a counter that never drops, the rates of any run account for the last reported total minus the first, plus the totals that misses let be booked again |
| TrafficRate.BookedRightExact | src/internal/poller/poller.go:403-456 | for a counter that never drops, the rates add up to what the device counted between its first and last report exactly when no good cycle follows a miss that follows traffic or precedes a first total above zero |
| TrafficRate.MissedRequestExact | src/internal/poller/poller.go:403-456 | witness: a miss between two good requests books the whole counter, right only if it stood at zero |
| TrafficRate.Meter.CalcRate | src/internal/poller/poller.go:634-652 | the rates, with wrapping subtraction, and the new baseline |
| UciParser.SplitFields | src/internal/config/config.go:274-301 | the one-pass quote scanner yields the recursively defined fields of the line |
| UciParser.FieldsNonEmpty | src/internal/config/config.go:274-301 | no field is empty, so a quoted empty value leaves no trace |
| UciParser.ParseUci | src/internal/config/config.go:214-269 | the parser's one pass yields the sections cut at config lines, or the first fault with its line: malformed, outside a section, or a crash |
| UciComments.IdleLine | src/internal/config/config.go:217-223 | a blank line, a comment line or one with no keyword, put in anywhere in any list of lines, leaves the sections as they are and moves only the number of a later fault |
| UciComments.IdleLineExact | src/internal/config/config.go:217-223 | the lines that can be put in everywhere without a trace are exactly these |
| UciRoundTrip.FirstFaultExact | src/internal/config/config.go:223-262 | the parser stops at the first line it cannot take, and which of the three faults it reports |
| UciRoundTrip.RoundTripExact | src/internal/config/config.go:214-301 | parsing the printed form of any sections over quote-free single-line words gives them back exactly when no word is empty |
| UciRoundTrip.OneSectionPerHead | src/internal/config/config.go:223-269 | there are as many sections as config lines |
| UciRoundTrip.GatherValues | src/internal/config/config.go:251-261 | a key's values are its last option and the lists after that |
| UciComments.OptionCommentExact | src/internal/config/config.go:213-261 | behind any option line with its quotes closed, a comment changes nothing exactly when the line has two fields already, or none and the comment is one word; a lone field takes the comment's first word as its value |
| UciComments.ListCommentExact | src/internal/config/config.go:213-261 | the same behind list lines, with those that are too short to slice |
| UciComments.HeadCommentExact | src/internal/config/config.go:223-238 | exactly when a comment behind a config line changes nothing; with type and name given it always makes the line malformed |
| UciComments.HeadCommentFatal | src/internal/config/config.go:214-269 | one comment behind a config line with type and name makes the whole file unreadable |
| UciComments.CommentedFileExact | src/internal/config/config.go:214-269 | comments behind any lines of a file that parses leave its meaning alone exactly when no config line is changed by its own |
| UciComments.OptionWithComment | src/internal/config/config.go:239-260 | an option line whose key and value are written bare or in either quotes, with any blanks and a comment: it means them exactly when neither is empty |
| UciComments.ListWithComment | src/internal/config/config.go:239-260 | the same for a list line |
| UciComments.EmptyValueTakesComment | src/internal/config/config.go:274-301 | witness: an empty value takes the comment's first word, which is # when a blank follows the mark |
| UciComments.DefaultPassword | root/etc/config/huawei_cpe:12 | witness: the password line of the default configuration sets it to # |
| UciRoundTrip.CrashExact | src/internal/config/config.go:243-250 | the lines that crash the parser in a section, by their length in bytes: list alone, or with one ASCII character after it |
| UciRoundTrip.WideListMalformed | src/internal/config/config.go:243-252 | list with one wider character after it is reported as malformed instead |
| UciRoundTrip.ParseCrashExact | src/internal/config/config.go:217-269 | parsing crashes at a line exactly when it is such a line, a section is open and nothing was wrong before |
| DeviceManager.UpdateMapped | src/internal/device/manager.go:162-201 | after any Update the keys are the configured ids and each has an open device of its own, whatever else is open |
| DeviceManager.UpdateOwned | src/internal/device/manager.go:162-201 | if no other device was open before an Update, none is afterwards, repeated ids included |
| DeviceManager.MappedForever | src/internal/device/manager.go:162-201 | after any sequence of updates the keys are the ids configured last, each with an open device |
| DeviceManager.OwnedExact | src/internal/device/manager.go:105-201 | after start-up and any updates the open devices are exactly the mapped ones, if and only if the sections at start-up had distinct ids |
| DeviceManager.NoChangeExact | src/internal/device/manager.go:170-199 | the change list is empty exactly when every id still maps to the object it mapped to |
| DeviceManager.ChangesExact | src/internal/device/manager.go:170-188 | the change list section by section: an addition where there is no device yet, a new host where the section meets another one, else nothing |
| DeviceManager.AddedOnce | src/internal/device/manager.go:183-188 | an id is reported as added once if it is configured and was not there, else never |
| DeviceManager.UpdateKeepsExact | src/internal/device/manager.go:170-188 | with distinct ids each device takes its section's settings and keeps its object exactly when its host did not change |
| DeviceManager.SettledExact | src/internal/device/manager.go:170-188 | repeated ids included, a device is kept as its last section stands if that meets its own host there, and made with the defaults if not |
| DeviceManager.DefaultUserExact | src/internal/device/device.go:60-72 | for every id whose last section names no user, the device has the default name exactly when that section meets another host, or no device |
| DeviceManager.DefaultUserDistinct | src/internal/device/device.go:60-72 | corollary for distinct ids: exactly when this Update made the device |
| DeviceManager.LastAfterUpdate | src/internal/device/manager.go:170-188 | with repeated ids the last section for an id decides |
| DeviceManager.QuietAgainExact | src/internal/device/manager.go:170-199 | updating again with the same sections reports no change exactly when every host is given and sections that share an id share it |
| DeviceManager.IdempotentExact | src/internal/device/manager.go:170-199 | updating again changes nothing at all, settings and objects included, exactly when in addition every id names a user or had its device kept by its last section |
| DeviceManager.StartOwnedExact | src/internal/device/manager.go:105-117 | a new manager owns all its open devices exactly when the named sections have distinct ids |
| DeviceManager.NamelessByPosition | src/internal/device/manager.go:107-112 | a nameless section becomes cpe-i in decimal, so no two of them share an id |
| DeviceManager.Manager.constructor | src/internal/device/manager.go:105-117 | one device per section in order, a nameless one under its position |
| DeviceManager.Manager.Update | src/internal/device/manager.go:162-201 | the new set, the reported additions and replacements in order, one removal for each id that went and no other, and when the list is empty |
| DeviceManager.Manager.Remove | src/internal/device/manager.go:191-198 | the removal loop, in whatever order it visits the ids, closes and forgets exactly the unseen devices |
| AppReload.StartLive | src/internal/app/app.go:64-74 | start-up leaves every loop and control on the open device its id maps to, for every configuration |
| AppReload.ReloadLive | src/internal/app/app.go:224-247 | a reload, successful or not, leaves no loop and no pause control on a replaced or removed device |
| AppReload.LoopsStayLive | src/internal/app/app.go:106-247 | the same over any sequence of reloads |
| AppReload.ControlReachesDevice | src/internal/app/app.go:183-189 | after start-up and any reloads the pause controls reach exactly the running pollers, each under the id that maps to its open device |
| AppReload.LastLoadedInForce | src/internal/app/app.go:224-236 | over any reloads the configuration is the last one that could be loaded and the devices are the ids it names; without one nothing has changed |
| AppReload.PollersMatchExact | src/internal/app/app.go:224-242 | for one reload: the pollers still match the enabled devices exactly when the change list is not empty or no enabled flag flips |
| AppReload.PollersOverRuns | src/internal/app/app.go:106-247 | over any run of reloads the pollers are the devices enabled once the last reload with a change was applied, and match the enabled ones exactly when no flag differs from then |
| AppReload.State.constructor | src/internal/app/app.go:64-74 | manager, pollers, syncers and controls as start-up makes them |
| AppReload.State.Reload | src/internal/app/app.go:224-247 | what a reload does to all of them, with a failed load changing nothing |
| History.GroupsExact | src/internal/history/history.go:150-157 | the buckets are at strictly ascending multiples of the group size and partition the rows: each holds exactly the rows of its key, and every key some row has occurs |
| History.GroupedSeriesExact | src/internal/history/history.go:150-171 | the same of the points, with the averages they carry |
| History.KeyNear | src/internal/history/history.go:150-157 | the key is the nearest multiple of the group size towards zero |
| History.AveragesConserve | src/internal/history/history.go:150-157 | average times count summed over the buckets is the sum over the rows, NULLs left out |
| History.AvgBetween | src/internal/history/history.go:150-157 | an average lies between any bounds of the values it averages |
| History.PointsBounded | src/internal/history/history.go:139-171 | rows within n group lengths make at most n + 1 points, wherever the window starts |
| History.BoundMet | src/internal/history/history.go:139-171 | a table that reaches this bound |
| History.SeriesBounded | src/internal/history/history.go:97-250 | for every bucket name the API knows: at most 169 points for d7, 31 for d30 and 7200 for raw ones, when no row is from the future |
| History.RawExact | src/internal/history/history.go:173-195 | raw points are in time order and complete exactly up to 7200; past that the latest are missing |
| History.RawSeriesExact | src/internal/history/history.go:173-195 | point i has the time of row i and in column c its c-th value, zero for NULL |
| History.RawIsGrouped | src/internal/history/history.go:139-195 | rows of different seconds, no more than the limit, make the same points by the raw query as grouped by the second |
| History.ChartsShown | src/internal/history/history.go:97-107 | each chart shows something exactly when a row of the device is at most an hour, a day, a week or thirty days old |
| HistoryStore.Atoi64Safe | src/internal/history/history.go:111-120 | dirty text is zero, numerals wrap modulo 2^64 |
| HistoryStore.NumberExact | src/internal/history/history.go:111-120 | a numeral keeps its value exactly when it fits |
| HistoryStore.NumberDirty | src/internal/history/history.go:111-120 | one character that is neither a digit nor a space makes the text zero |
| HistoryStore.Store.PutSnapshot | src/internal/history/history.go:42-89 | an offline snapshot records nothing; an online one appends one row per capability whose statement succeeds: device, time, the measured values in column order, the band in the one column the mode names, cell-info before the fallbacks |
| HistoryStore.RowsAreRecordings | src/internal/history/history.go:40-89 | over every run, prunes and failing statements included, the rows of a device in a window the retention covers are exactly its online recordings, in order |
| HistoryStore.ChartsShowRecordings | src/internal/history/history.go:40-250 | from recording to answer: after any run h1 lists the signal values of the last hour, d1 the rates of the last day, one point per recording up to 7200 |
| HistoryStore.FiveGExact | src/internal/history/history.go:48-53 | the test on the mode: 5G or NR somewhere in it, in any case |
| HistoryStore.Store.PruneHistory | src/internal/db/db.go:84-95 | each table keeps every row from the cutoff on as often as before and nothing older; what stays when a statement fails |
| HistoryStore.PruningExact | src/internal/db/db.go:84-95 | over all runs of recordings and prunes, failing ones included, no series ever differs from the one without pruning, exactly when there is no retention or it covers the window |
| HistoryStore.RetentionExact | src/internal/history/history.go:97-250 | 30 days is the least retention at which no SignalSeries or TrafficSeries of any bucket name ever changes because of a prune |
| CellList.AtoiPrint | src/internal/poller/cellparse.go:88-97 | a printed integer decodes to itself, clamped to the range |
| CellList.AtoiPadded | src/internal/poller/cellparse.go:88-97 | blanks around it do not matter |
| CellList.SecCellCsv | src/internal/poller/cellparse.go:52-85 | the cell of a row, or its rejection below seven columns |
| CellList.ParseCellList | src/internal/poller/cellparse.go:101-111 | the cells of the accepted rows in order |
| CellList.RowExact | src/internal/poller/cellparse.go:52-85 | a row printed in any of the four layouts decodes to what the layout carries exactly when it is unambiguous |
| CellList.ListExact | src/internal/poller/cellparse.go:101-111 | a list in any mix of layouts and separators is recovered cell by cell exactly when every row is unambiguous |
| CellList.RejectedExact | src/internal/poller/cellparse.go:52-58 | a row is dropped exactly when it has fewer than six commas |
| CellList.LongRow | src/internal/poller/cellparse.go:66-84 | columns past the ninth do not matter |
| CellList.MeasurementsUnambiguous | src/internal/poller/cellparse.go:64-77 | corollary: bandwidth up to 100 below the PCI and a negative RSRP are never misread |
| Base64.CleanRoundTrip | src/internal/poller/logparse.go:130-139 | decoding undoes encoding for all bytes, padded and unpadded |
| Base64.CrossDecode | src/internal/poller/logparse.go:130-139 | each decoder accepts the other encoding exactly when no padding is involved, and then agrees |
| Base64.AcceptedExact | src/internal/poller/logparse.go:130-139 | what each decoder accepts: codes, then at most two pads or none, never one code alone in the last group |
| Base64.GroupValue | src/internal/poller/logparse.go:130-139 | four codes are the 24-bit number of their three bytes |
| Base64.CodeIsAlphabet | src/internal/poller/logparse.go:130-139 | the 64 characters of Table 1 of RFC 4648 |
| LogDecode.DecodeLogContent | src/internal/poller/logparse.go:115-140 | trim, prefix, padded before unpadded, guard, and the trimmed text with its prefix when all fail |
| LogDecode.PrefixedDecodes | src/internal/poller/logparse.go:115-140 | behind a prefix in any spelling any bytes come back, readable or not, padded or not, wrapped anywhere |
| LogDecode.BareDecodesExact | src/internal/poller/logparse.go:115-140 | without a prefix bytes come back exactly when they are readable, or none |
| LogDecode.PlainKept | src/internal/poller/logparse.go:115-140 | text with a byte no encoding has is kept |
| LogDecode.NeverGarbled | src/internal/poller/logparse.go:109-140 | without a prefix the result is the trimmed text or a readable decoding of it |
| LogDecode.ReadableText | src/internal/poller/logparse.go:146-163 | the rune loop decides: valid UTF-8, not empty, four fifths printable |
| LogText.ReadableExact | src/internal/poller/logparse.go:146-163 | readable is: the UTF-8 form of some Unicode scalar values, not empty, four fifths of its bytes printable, counted as a set of positions |
| LogText.ValidExact | src/internal/poller/logparse.go:147-149 | valid text is exactly what the table of section 3 of RFC 3629 writes |
| LogDecode.ParseLogInfo | src/internal/poller/logparse.go:36-106 | the entries that are not blank, from list, single map or flat form and with the alternative keys, the last 50 of them, latest first |
| LogEntries.EntryBack | src/internal/poller/logparse.go:51-58 | an entry comes back whichever of its keys each field is written under, with blanks around it or as a number, its content plain, behind a prefix or in bare base64, whatever else the map holds behind those keys |
| LogEntries.ListedBack | src/internal/poller/logparse.go:41-75 | printed entries in a list, elements that are no maps in between, come back as the last 50 that say anything, latest first |
| LogEntries.SingleBack | src/internal/poller/logparse.go:41-75 | the same of one map, of the flat form, and of a list without any map |
| LogDecode.ReverseInPlace | src/internal/poller/logparse.go:65-69 | the swap loop reverses the array |

## Left out

- SDK requests, HTTP routing, JSON, the Lua proxy, the LuCI pages and the init script: input, output and user interface; replies are arbitrary values here.
- SQLite: only the row-level meaning of each statement, with a possible failure each; WAL, migrations and the data source name are not modelled.
- SmsSearch.SearchExact: LIKE on NUL characters and SQLite's limit on the length of a pattern are not modelled.
- UciParser.ParseUci: text is a sequence of code points, measured in bytes where the code does; bytes that are not valid UTF-8 and the scanner's 64 KB line limit are not modelled.
- Typed options, defaults and the masked output of the configuration: one branch each.
- DeviceManager.UpdateOwned: a device is an index into a store of objects, and its connection is the subject of DeviceLease, so a Close that fails is not modelled here; the lists All and Enabled are sets, without their order.
- AppReload.LoopsStayLive: a loop is the device it was made for; the bounded wait of 6 s in which a stopped loop may still be at work is not modelled.
- SmsMirror.NoPullBackExact: rounds and handlers of one device; rows of other devices are never touched by them.
- SmsHandlers.Api.Delete: one call without interference; interference is in SmsMirror.
- PollCycle.Poller.PollOnce: the snapshot is its flags and capabilities; the field copies of the replies are not modelled.
- TrafficRate.RatesConserve: rates are reals, so float rounding is not modelled.
- History.RawExact: rows of the same second keep table order, which SQL leaves open; averages are reals.
- HistoryStore.PruningExact: calendar days of 23 or 25 hours are not modelled.
- CellList.ParseCellList: text is a sequence of code points; the lists are given, their place in the reply is not modelled.
- LogDecode.ParseLogInfo: a number among the fields comes as its decimal text; how Go formats a float is not modelled.
- The snapshot cache, device actions, notifications and log lines: last-write maps, thin pass-throughs and output.
- The reload signal at start-up: the notify channel's argument in a simpler form.
