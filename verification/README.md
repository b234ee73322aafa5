# Hopper checks and key-input drivers, modelled in Dafny

This project models two parts of an operant-conditioning apparatus controller.

**The hopper log checkers.** A feeder hopper is commanded up and down (`feeding: true/false`), and a
switch reports its level (`up: true/false`). Two scripts read the event log and find feeder faults:

- `scripts/decide-check-hopper.py` is the paired, offline checker. It normalises raw records into
  commands and observations, groups them by controller, and pairs each command with the event right
  after it. It classifies each pair as `none`, `raise` or `lower`, then counts the
  `(hopper, error)` keys into a sorted report with two totals.
- `scripts/check_hopper.py` is the streaming, level-based checker. It folds the feeder and hopper
  records through a handful of variables and reports lowering errors, raising errors and switch
  bounces, with counts of feedings, failures and bounces.

**The key-input drivers.** `lib/keys.js` reads 32-byte raw input-device records. `lib/key-evdev.js`
reads decoded evdev events. Both keep a map from key names to levels, seeded from a configurable
keymap by the merge rules of `lib/util.js`. Both announce level changes as `state-changed` events and
answer the `change-state`, `reset-state`, `get-state`, `get-meta` and `get-params` requests.

The model is pure. Log records are a datatype with optional fields. A Python exception is a
`Failure` carrying the fault kind:

- `KeyError` for a missing field.
- `IndexError` for a feeder component without `_`.
- `TypeError` for a switch bounce before any rise.

A JavaScript object is a `map`. Emitted events are returned as a sequence rather than sent.

Modules, in dependency order:

- `Wrappers`: `Option` and `Result`.
- `Util`: `update` and `extend`.
- `Strings`: Python's `split`, `join` and string order.
- `Records`: raw records and fault kinds.
- `HopperEvents`: `extract_hopper_events`.
- `PairedCheck`: `check_hopper_events`.
- `Grouping`: `group_by`.
- `Report`: the Counter, sort and totals.
- `DecideCheck`: the per-controller pipeline.
- `StreamingCheck`: `check_hopper.py`.
- `KeyDriver`: the state and requests shared by both drivers.
- `KeyEvdev` and `Keys`: the two readers.

A few facts about the code that the model keeps:

- In `decide-check-hopper.py`, a record without `addr` raises. So does a relevant record without
  `time`, or a hopper reading without `up`. Any of these ends the run.
- In `check_hopper.py`, a record without `addr` is skipped by `feeder_rec_p`. A feeder record without
  `time`, or a `hopper` record without `up`, raises and ends the run.
- The streaming messages are "error lowering" and "error raising".
- A paired outcome carries the command's own time stamp.
- The offline relevance test is `feeding` present or component `hopper`.
- The totals test the first element of the key (see Findings).

## Model

| member | source | states |
|---|---|---|
| Util.Update | lib/util.js:6-12 | only keys `x` already has are touched; each takes `y`'s value where `y` has it, else keeps its own |
| Util.Extend | lib/util.js:15-21 | the result has the keys of both objects; `y`'s value wins; keys only in `x` keep their values |
| Util.UpdateInPlace | lib/util.js:6-12 | the for-in loop over `x`'s keys, in any visiting order, computes `Update` |
| Util.ExtendInPlace | lib/util.js:15-21 | the for-in loop over `y`'s keys, in any visiting order, computes `Extend` |
| Util.UpdateIdempotent | lib/util.js:6-12 | applying `update` again with the same source changes nothing |
| Util.UpdateIsRestrictedExtend | lib/util.js:6-21 | `update` is `extend` with the source cut down to keys the target already has |
| Util.UpdateAgreesWithExtendOnKnownKeys | lib/util.js:6-21 | when the source has no new keys, `update` and `extend` agree |
| Strings.Split | scripts/decide-check-hopper.py:66 | `str.split` gives one piece more than there are separators, and no piece contains the separator |
| Strings.JoinSplit | scripts/decide-check-hopper.py:66 | joining the pieces of a split with the separator gives back the string |
| Strings.SplitJoin | scripts/decide-check-hopper.py:66 | splitting a join of separator-free pieces gives back the pieces |
| Strings.SplitAtOneSeparator | scripts/check_hopper.py:61 | a string with one separator splits into exactly its two sides |
| Strings.SplitSecondPiece | scripts/decide-check-hopper.py:89 | after the first separator, the second piece of a split is the separator-free run up to the next separator or the end |
| Strings.FirstIndex | scripts/decide-check-hopper.py:89 | the first occurrence of a character: it is there, and not before |
| Strings.OccurrencesPositive | scripts/decide-check-hopper.py:89 | the separator count is positive exactly when the separator occurs |
| Strings.LessTotal | scripts/decide-check-hopper.py:151 | Python's string order relates any two different strings |
| Strings.LessTransitive | scripts/decide-check-hopper.py:151 | Python's string order is transitive |
| HopperEvents.SplitAddr | scripts/decide-check-hopper.py:64-68 | a controller is found exactly when the address has one '.', and controller + "." + component is the address; otherwise `(None, addr)` |
| HopperEvents.RelevantMeans | scripts/decide-check-hopper.py:64-74 | a record yields an event exactly when it has an address and either carries `feeding` or its address is `hopper` or one controller name followed by `.hopper` |
| HopperEvents.Normalize | scripts/decide-check-hopper.py:63-78 | a record with `feeding` becomes a command and a `hopper` component an observation, keeping time, controller and component; others are skipped; `KeyError` exactly on a missing `addr`, or on a missing `time`/`up` that the yielded dict needs, naming `time` for a command and `up` before `time` for an observation |
| HopperEvents.Extract | scripts/decide-check-hopper.py:61-78 | the generator drains without raising exactly when every record normalises |
| HopperEvents.Kept | scripts/decide-check-hopper.py:69-78 | the positions that yield an event are increasing and are exactly the relevant records |
| HopperEvents.ExtractIsOrderedSelection | scripts/decide-check-hopper.py:61-78 | the extracted events are exactly the normalised relevant records, in log order |
| PairedCheck.HopperId | scripts/decide-check-hopper.py:89 | `split("_")[1]` raises `IndexError` exactly when the component has no '_'; otherwise it is the run between the first '_' and the next '_' or the end |
| PairedCheck.Classify | scripts/decide-check-hopper.py:89-93 | the outcome has the command's time and hopper id; `none` exactly when the next event is an observation at the commanded level, otherwise `raise` for an on command and `lower` for an off command |
| PairedCheck.Check | scripts/decide-check-hopper.py:80-94 | at most one outcome per command |
| PairedCheck.CheckFrom | scripts/decide-check-hopper.py:80-94 | the scan resumed at a position yields at most one outcome per command from there on |
| PairedCheck.CheckPair | scripts/decide-check-hopper.py:82-94 | a command followed by one event yields exactly that pair's outcome, or its fault |
| PairedCheck.ScanMatchesRunParity | scripts/decide-check-hopper.py:82-94 | from a position after an even run of commands, the scan yields exactly the outcomes of the commands at even positions of their run that have a successor |
| PairedCheck.CheckMatchesRunParity | scripts/decide-check-hopper.py:80-94 | the whole scan equals that independent description |
| PairedCheck.ConsumedCommandNotClassified | scripts/decide-check-hopper.py:85 | a command taken as a successor is not classified itself |
| PairedCheck.DanglingCommandIgnored | scripts/decide-check-hopper.py:80-87 | a command that ends a controller's events and is not consumed as a successor changes nothing: the check of the events equals the check without it |
| PairedCheck.OutcomesFromShape | scripts/decide-check-hopper.py:89-94 | a successful scan yields one outcome per classified command, and each classified command has a '_' in its component |
| PairedCheck.OutcomesFromFailure | scripts/decide-check-hopper.py:80-94 | the scan raises exactly when some classified command's component has no '_', and it raises `IndexError` |
| PairedCheck.CheckFailure | scripts/decide-check-hopper.py:80-94 | the whole check raises `IndexError` exactly when some classified command's component has no '_' |
| PairedCheck.FirstOutcome | scripts/decide-check-hopper.py:89-94 | the first classified command's pair gives the first outcome |
| PairedCheck.SkipUnclassified | scripts/decide-check-hopper.py:82-83 | positions that are not classified contribute nothing |
| Grouping.GroupBy | scripts/decide-check-hopper.py:97-104 | a key has a group exactly when some element has that key; its group is the elements with that key, in input order |
| Grouping.SelectMembers | scripts/decide-check-hopper.py:101-103 | a group holds only input elements of its key |
| Grouping.ElementInOwnGroup | scripts/decide-check-hopper.py:102-103 | every element lands in the group of its own key |
| Grouping.SelectSizes | scripts/decide-check-hopper.py:97-104 | a key's group and the rest partition the input: together they hold each element as often as the input does |
| Grouping.OtherKeysDoNotMatter | scripts/decide-check-hopper.py:97-104 | inserting an element of another key anywhere leaves a group unchanged |
| Report.Keys | scripts/decide-check-hopper.py:147 | one `(hopper, error)` key per outcome, in order |
| Report.Insert | scripts/decide-check-hopper.py:151 | adding a key keeps a key list strictly ascending and adds exactly that key |
| Report.SortedKeys | scripts/decide-check-hopper.py:151 | the sorted Counter keys are strictly ascending and are exactly the distinct keys |
| Report.KeyLessTotal | scripts/decide-check-hopper.py:151 | tuple order relates any two different keys |
| Report.KeyLessTransitive | scripts/decide-check-hopper.py:151 | tuple order is transitive |
| Report.RowsOf | scripts/decide-check-hopper.py:151-152 | one line per sorted key, carrying that key's Counter value |
| Report.RowsDescribeOutcomes | scripts/decide-check-hopper.py:147-152 | report lines are strictly ascending, every outcome's key has a line, and each line's count is the positive number of outcomes with its key |
| Report.CountOnceInAscending | scripts/decide-check-hopper.py:151 | a key occurs once in the sorted keys |
| Report.TotalCountsKeys | scripts/decide-check-hopper.py:148-149 | summing the lines that pass a filter counts the outcomes whose key passes it |
| Report.TotalErrorsAsWritten | scripts/decide-check-hopper.py:148 | the error total as written and the feed total as written share out all counted outcomes, and when no hopper is named "none" every counted outcome is an error |
| Report.TotalFeedsAsWritten | scripts/decide-check-hopper.py:149 | when no hopper is named "none", the feed total as written is 0 |
| Report.Summarize | scripts/decide-check-hopper.py:147-152 | the report with the totals as written: errors are the outcomes whose hopper id is not "none", feeds the others, and together they are all outcomes |
| Report.SummarizeIntended | scripts/decide-check-hopper.py:147-152 | the same lines with the totals as intended: errors are the outcomes with an error, feeds the others |
| Report.TotalErrorsCountErrors | scripts/decide-check-hopper.py:148 | the corrected error total is the number of outcomes with an error |
| Report.TotalFeedsCountFeeds | scripts/decide-check-hopper.py:149 | the corrected feed total is the number of outcomes without an error |
| Report.TotalsSplitOutcomes | scripts/decide-check-hopper.py:148-149 | the corrected totals add up to the number of outcomes |
| Report.TotalsAsWrittenTestHopperId | scripts/decide-check-hopper.py:148-149 | the totals as written count outcomes by whether the hopper id is "none" |
| Report.SuccessfulFeedCountedAsError | scripts/decide-check-hopper.py:148-149 | one successful feed of hopper "1" is one error and no feed as written, and no error and one feed as intended |
| DecideCheck.CheckLog | scripts/decide-check-hopper.py:145-153 | the run raises exactly when some record fails to normalise; otherwise there is one report per controller with events, built from exactly that controller's events |
| DecideCheck.CheckController | scripts/decide-check-hopper.py:146-152 | a controller's check raises `IndexError` exactly when a classified command names no hopper; otherwise its totals add up to the number of classified commands |
| DecideCheck.SingleFeedSummary | scripts/decide-check-hopper.py:147-152 | one successful feed of hopper 1 gives one `none` line, with 1 error and 0 feeds as written and 0 errors and 1 feed as intended |
| DecideCheck.ExtractAppend | scripts/decide-check-hopper.py:61-78 | extraction distributes over concatenation of logs |
| DecideCheck.ExtractSplit | scripts/decide-check-hopper.py:61-78 | both halves of a log that drains without raising also drain, and their events together are the log's |
| DecideCheck.ExtractInsert | scripts/decide-check-hopper.py:61-78 | a record inserted between two logs puts its event, if any, between their events |
| DecideCheck.SelectSkipsRecord | scripts/decide-check-hopper.py:101-103 | the event of another controller's record does not enter this controller's group |
| DecideCheck.GroupUnchangedByInsert | scripts/decide-check-hopper.py:145 | inserting another controller's record leaves this controller's events unchanged |
| DecideCheck.ControllersIsolated | scripts/decide-check-hopper.py:145-153 | inserting another controller's record anywhere into the log leaves this controller's report unchanged |
| DecideCheck.ScenarioFeedAnswered | scripts/decide-check-hopper.py:145-153 | an on command answered by the hopper rising gives one `none` line for hopper 1, which the totals as written count as 1 error and 0 feeds |
| DecideCheck.ScenarioRepeatedCommand | scripts/decide-check-hopper.py:82-94 | an on command followed by another on command is a `raise` at the first command's time, and the second command is consumed |
| DecideCheck.ScenarioDanglingCommand | scripts/decide-check-hopper.py:84-87 | a command with nothing after it yields no outcome |
| StreamingCheck.Step | scripts/check_hopper.py:50-70 | see the list after this table |
| StreamingCheck.RejectedRecordIgnored | scripts/check_hopper.py:49 | a record the filter rejects, wherever it is inserted into the log, leaves the whole pass (tracker, printed lines, or exception) unchanged |
| StreamingCheck.ControllerAddressRejected | scripts/check_hopper.py:26-31 | the filter tests the whole address: `<c>.<x>` is rejected unless `c` itself starts with `feeder`, so `box1.feeder_2` and `box1.hopper` are not feeder records |
| StreamingCheck.PrefixedLogIgnored | scripts/check_hopper.py:26-31 | a log of `box1.feeder_2` and `box1.hopper` records passes with nothing counted and nothing printed |
| StreamingCheck.Run | scripts/check_hopper.py:40-70 | from the initial values of lines 40-44, a log without feeder records leaves them untouched, and every failure and bounce counted is printed once |
| StreamingCheck.StepFeedingOn | scripts/check_hopper.py:52-62 | an on command for address `a_b` counts a feeding and records hopper `b`; a hopper still up is one lowering error, printed with the previous hopper |
| StreamingCheck.CheckLog | scripts/check_hopper.py:49-70 | the loop over the records computes the fold `Run`, stopping at the first exception |
| StreamingCheck.FaultIsFinal | scripts/check_hopper.py:49-70 | once an iteration raises, later records change nothing |
| StreamingCheck.PassLevels | scripts/check_hopper.py:52-64 | after the loop, `feeding` is the last command's value and `hopper_up` the last switch reading's |
| StreamingCheck.PassRiseTime | scripts/check_hopper.py:63-70 | after the loop, the rise time is the last rise's time; a hopper that is up has one |
| StreamingCheck.PassCounts | scripts/check_hopper.py:40-70 | see the list after this table |
| StreamingCheck.RunSnoc | scripts/check_hopper.py:49-70 | a further feeder record extends a pass by one step |
| StreamingCheck.ScenarioBounce | scripts/check_hopper.py:63-68 | feeder 2 on, hopper rises at 1250 and falls at 1400 while on: one bounce of 150 ms for hopper 2 |
| KeyDriver.Configure | lib/keys.js:22-26 | the parameters are the device and the keymap; each default is kept unless the caller overrides it |
| KeyDriver.InitialState | lib/keys.js:35-39 | every keymap key, and only those, starts at level 0 |
| KeyDriver.MetaOf | lib/keys.js:29-39 | the advertised variables are exactly the keys of the initial state |
| KeyDriver.Start | lib/keys.js:22-39 | construction succeeds exactly when the keymap parameter is a list; the state is the keymap at 0 and is announced unstamped |
| KeyDriver.Changes | lib/keys.js:65-70 | the update holds exactly the known keys whose requested level differs, with the requested levels |
| KeyDriver.ChangeState | lib/keys.js:63-74 | the state keeps its keys and takes the requested levels of known keys; one unstamped event holding the changes is emitted exactly when some known key changes |
| KeyDriver.ChangeStateInPlace | lib/keys.js:66-70 | the for-in loop over the request, in any order, builds the same update and state |
| KeyDriver.ChangeStateRepeatIsQuiet | lib/keys.js:63-74 | repeating a `change-state` request changes nothing and emits nothing |
| KeyDriver.Apply | lib/key-evdev.js:50-56 | a reading is stored under its name; it is announced with its stamp exactly when the name is new or its level differs |
| KeyDriver.ApplyAgreesWithChangeState | lib/keys.js:50-69 | for a known key, a device reading and a one-entry `change-state` request agree on the state and on whether an event is emitted |
| KeyDriver.Handle | lib/keys.js:61-85 | only `change-state` changes state or emits; each other known request gets its reply; an unknown request type gets the error reply |
| KeyDriver.HandleKeepsKeys | lib/keys.js:61-85 | no request changes which keys the state has |
| KeyEvdev.KeyName | lib/key-evdev.js:50 | the code indexes the keymap; outside it the name is "undefined" |
| KeyEvdev.MicrosOf | lib/key-evdev.js:55 | the microsecond stamp splits back into seconds and microseconds when the microseconds are below one million |
| KeyEvdev.Read | lib/key-evdev.js:47-57 | a non-key event is ignored; a key event sets its key; an event with a microsecond stamp is emitted exactly when the level moves or the key is new |
| KeyEvdev.ReadAll | lib/key-evdev.js:47-57 | at most one event per input event |
| KeyEvdev.RepeatedEventIsQuiet | lib/key-evdev.js:52-56 | reading the same event twice announces it at most once |
| KeyEvdev.KnownCodesKeepKeys | lib/key-evdev.js:47-57 | with codes inside the keymap, the state keeps its keys |
| KeyEvdev.ReadAllAppend | lib/key-evdev.js:47-57 | reading a stream in two parts gives the same state and emissions as reading it whole |
| KeyEvdev.NoEventKeepsLevel | lib/key-evdev.js:47-57 | a key no event names keeps its level, and stays absent if it was absent |
| KeyEvdev.LastEventWins | lib/key-evdev.js:47-57 | a key's final level is the value of the last key event naming it, whatever events before it and events naming other keys after it |
| Keys.KeyName | lib/keys.js:47 | codes count keymap entries from 1; outside the keymap the name is "undefined" |
| Keys.KeyNameOffsetByOne | lib/keys.js:47 | a raw code names the key that the evdev driver gives for the code one less |
| Keys.U16 | lib/keys.js:45-46 | a 16-bit read is below 65536 |
| Keys.U32 | lib/keys.js:49 | a 32-bit read is below 2^32 |
| Keys.MillisOf | lib/keys.js:53 | the millisecond stamp is the evdev driver's microsecond stamp for the same seconds and microseconds, divided by 1000 |
| Keys.ReadChunk | lib/keys.js:44-54 | a chunk whose type field is too short, or a key chunk shorter than 16 bytes, throws; a non-key chunk changes nothing; a key chunk sets its key to the 32-bit value and emits exactly when the level moves or the key is new, and what it emits is that one key with its value and the millisecond stamp |
| Keys.ReadFrom | lib/keys.js:43-56 | at most one event per chunk; a read only throws where a short chunk is met |
| Keys.Reader | lib/keys.js:41-57 | at most one event per 32-byte chunk; a buffer of whole records is always read to its end |
| Keys.DecodeEncode | lib/keys.js:44-53 | the little-endian reads give back the encoded fields, and the stamp is seconds × 1000 plus microseconds / 1000 |
| Keys.ChunkMatchesEvdevEvent | lib/keys.js:45-54 | a raw key record with code c changes the state as the evdev driver does for code c - 1, and emits under the same condition |
| Keys.ChunkMatchesEvent | lib/keys.js:44-54 | the raw record of any evdev event has that event's effect on the state and announces the same changes |
| Keys.ReadEncodedFrom | lib/keys.js:41-57 | from where the raw records of an evdev stream start, the reader reads them all and ends as the evdev reader does, with the same announced changes |
| Keys.ReaderMatchesEvdev | lib/keys.js:41-57 | `reader` on the raw records of an evdev stream never throws, ends in the evdev reader's state, and announces the same changes in the same order |
| Keys.ReadChunkReadsHead | lib/keys.js:44-53 | a chunk is read only through bytes 0-15 (stamp, type, code, value): two chunks of one length that agree there are read alike |
| Keys.ReaderReadsHeads | lib/keys.js:41-57 | `reader` gives the same result on two buffers of one length whose 32-byte records agree on their first 16 bytes |
| Keys.PaddedReaderMatchesEvdev | lib/keys.js:41-57 | the evdev correspondence holds for any buffer whose records carry an evdev stream's fields, whatever their bytes 16-31 hold |

`StreamingCheck.Step` states, per record:

- It raises exactly when `time` is missing, an on command's address has no '_', or a switch reading
  has no `up` or falls while feeding before any rise. The faults are `KeyError` for the missing
  key, `IndexError` for the address, and `TypeError` for the fall.
- A command sets `feeding` and counts a failure exactly when the new level equals `hopper_up`. An on
  command counts a feeding and needs a '_' in its address.
- A switch reading sets `hopper_up` and records the time of a rise. It counts a bounce exactly when
  the hopper falls while feeding, and that raises `TypeError` exactly when no rise was seen.
- Other feeder records change nothing.
- Every count increment is printed. An on command against a hopper still up prints one lowering
  error, and an off command against a hopper still down prints one raising error. Both name the
  hopper remembered before the command. Any other command prints nothing.
- A fall while feeding prints one bounce with the remembered hopper and the time since the last
  rise. Any other switch reading prints nothing.
- An on command that succeeds remembers the piece of its address between the first and the second
  '_', or up to the end if there is no second '_'.

`StreamingCheck.PassCounts` states, after the loop:

- Feedings count the on commands exactly.
- Failures are bounded by the commands, and bounces by the switch readings.
- Every failure and bounce was printed.
- A hopper id is known exactly when some on command was seen.

## Left out

- Reading the log, whether a JSON-lines file or a MongoDB query with its time cutoff. The model takes
  the records as a sequence.
- argparse, printing, message formatting, and the `datetime` conversion of time stamps. These are
  output only. An out-of-range time stamp that would make `fromtimestamp` raise is not modelled.
- The e-mail alert at scripts/decide-check-hopper.py:155-160. It needs the database and SMTP. Its
  threshold reads the total that the Findings row corrects.
- `feeder_rec_p` with a non-string `addr`. Records are modelled with string addresses and boolean
  `feeding`/`up`. Python's truthiness of other JSON values is not modelled.
- Opening the device, the tty stream, the evdev binding, `disconnect`, and the `BBB_ENV` switch. The
  readers take the bytes or events as parameters.
- JavaScript loose equality, and keys inherited through the prototype chain (such as `"toString"`).
  Levels are modelled as integers, and `in` means an own key.
- Keys.MillisOf: uses exact reals for the millisecond stamp. JavaScript computes it in binary
  floating point.
- The aliasing of the announced state, meta and parameter objects with the live ones. Later
  mutation of an object already handed out is not visible in the model.
- DecideCheck.CheckLog: keeps each controller's fault next to the other controllers' reports. The
  script stops at the first controller whose check raises, after printing the reports of the
  controllers before it, in order of first appearance.
- StreamingCheck.Run: a fault replaces the whole pass. The lines the script printed before raising
  are not part of the result.
- `make_timer` and the other exports of lib/util.js. They are outside this model.
- PairedCheck.Check: states only a bound on its own. Its contents are stated by
  `PairedCheck.CheckMatchesRunParity` and `PairedCheck.OutcomesFromShape`.
- PairedCheck.CheckFrom: states only a bound on its own. Its contents are stated by
  `PairedCheck.ScanMatchesRunParity` and `PairedCheck.OutcomesFromFailure`.
- KeyEvdev.ReadAll: states only a bound on its own. Its contents are stated by
  `KeyEvdev.ReadAllAppend`, `KeyEvdev.NoEventKeepsLevel`, `KeyEvdev.LastEventWins` and
  `KeyEvdev.KnownCodesKeepKeys`.
- Keys.ReadFrom: states bounds and the abort condition. The effect of each chunk is stated by
  `Keys.ReadChunk`, and that of a whole buffer of records by `Keys.ReaderMatchesEvdev`.
- Keys.ReaderMatchesEvdev: covers buffers of whole records whose fields fit the record layout, with
  zeros in bytes 16-31 of each record. `Keys.PaddedReaderMatchesEvdev` lifts the zero bytes to any
  bytes. It compares the announced changes without their stamps, which are milliseconds here and
  microseconds in the evdev driver.
- Keys.U16: states only the range. `Keys.DecodeEncode` states that it reads back what was written.
- Keys.U32: states only the range. `Keys.DecodeEncode` states that it reads back what was written.

## Findings

| source | as written | input that shows it | evidently intended | confidence | as-written member | corrected member |
|---|---|---|---|---|---|---|
| scripts/decide-check-hopper.py:148-149 | the totals test `k[0]`, the hopper id, against `'none'` | one controller whose only outcome is a successful feed of hopper `1`: total errors 1, total feeds 0 | test `k[1]`, the error label: total errors 0, total feeds 1 | high; not executed | Report.SuccessfulFeedCountedAsError | Report.SummarizeIntended |

`Report.Summarize`, which `DecideCheck.CheckController` and `DecideCheck.CheckLog` report, uses
the totals as written, `Report.TotalErrorsAsWritten` and `Report.TotalFeedsAsWritten`.
`Report.TotalsAsWrittenTestHopperId` states what they count. `Report.SummarizeIntended` builds
the same lines with the corrected totals `Report.TotalErrors` and `Report.TotalFeeds`.
`Report.TotalErrorsCountErrors` and `Report.TotalFeedsCountFeeds` state what those count.
