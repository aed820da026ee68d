# heat-test, modelled in Dafny

heat-test is a small tokio program that polls a set of devices. The device
set lives in `./asset_list.json`, which maps each device name to a value
file and a polling interval in milliseconds. The program has three parts:

- The **controller** keeps a map from device name to the last value
  received. It spawns one task per device, and handles the messages those
  tasks send.
- A **device task** runs a `DeviceReader`. The reader sends the value it
  read at start-up. Then, at every tick of its interval, it reads the value
  file again and sends the value whenever it changed.
- The **configuration watcher** reloads `asset_list.json` every 500 ms. It
  sends the new device set whenever it differs from the last one.

On a config change, the controller aborts every device task, clears the map
and spawns tasks for the new set.

The model is split into modules:

- `Types` holds the vocabulary: errors, the device configuration, the
  messages, and the file system seen as a map from path to contents.
- `StdText` models exactly the two standard-library functions that decide
  what a reader accepts: `str::trim` (Unicode White_Space at both ends) and
  `u64::from_str`.
- `ChangeFilter` holds the one loop that the reader and the watcher share.
  - `Track` is the loop: keep a baseline; stop at the first error; ignore
    an equal reading; replace the baseline with a different reading, then
    send it.
  - `Destutter` is an independent definition of "every change", which
    `Track` is proved against.
- `Channels` is the sender side of the `mpsc` channel: an append-only
  outbox, plus whether the receiver is alive.
- `Reader` is `DeviceReader`. `FromConfig` is a function; the reader is a
  class with a mutable `currentValue`; `ReadContent` and `Read` are methods.
- `Tasks` holds `create_tasks` and the body of a spawned device task.
  - A task handle is an abstract id, tagged with the reader moved into the
    task.
- `Config` loads the configuration file. `Controller::new` and the watcher
  both use it.
- `Watcher` holds `wait_config_change`, as a class with a `devices` baseline.
- `Control` holds the controller.
  - The class holds the values map, the handles of the running tasks, the
    ids of the aborted tasks, and the next id to give out. Its invariant
    says that the aborted tasks are exactly those spawned before the
    running ones.
  - `HandleMessage` is one step of the receive loop, and `Controll` is the
    loop.
  - `Apply` and `Replay` state what happens to the values map.

Loops that never end in the source (`read`, `wait_config_change`, the
receive loop) run in the model over a finite trace: one file-system
snapshot per interval tick, or the inbox of messages that were received.
A `None` error means the trace ran out while the loop was still running.

## Model

| member | source | states |
|---|---|---|
| StdText.Trim | src/reader.rs:25 | `str::trim` removes the leading White_Space, then the trailing White_Space of what is left, so it never lengthens its input; the rest of its contract is `TrimInfix` and `TrimEnds` |
| StdText.LeadingSpec | src/reader.rs:25 | the count of leading characters that `trim` drops: each of them is White_Space, and the next one is not |
| StdText.TrailingSpec | src/reader.rs:25 | the same, at the back of the string |
| StdText.TrimInfix | src/reader.rs:25 | `trim` returns the infix that starts after the leading white space and has only white space after it |
| StdText.TrimEnds | src/reader.rs:25 | what `trim` returns neither starts nor ends with white space |
| StdText.TrimPadded | src/reader.rs:56 | white space added around a text that does not start or end with white space is removed again by `trim` |
| StdText.Accumulate | src/reader.rs:26 | the checked digit loop of `u64::from_str` never yields a value above `u64::MAX` |
| StdText.ParseU64 | src/reader.rs:26 | `u64::from_str` only yields values of at most `u64::MAX` |
| StdText.HornerSnoc | src/reader.rs:26 | the unchecked left-to-right digit loop over one more digit multiplies by ten and adds that digit |
| StdText.HornerIsDecimal | src/reader.rs:26 | the left-to-right digit loop computes the positional decimal value |
| StdText.HornerGrows | src/reader.rs:26 | the digit loop never decreases its accumulator, so an overflow cannot be undone by later digits |
| StdText.AccumulateSpec | src/reader.rs:26 | the checked loop succeeds exactly when every character is a digit and the value fits in a `u64`, and then yields that value |
| StdText.ParseU64Spec | src/reader.rs:26 | `u64::from_str` accepts exactly an optional `+` followed by one or more digits whose value is at most `u64::MAX`, yields that value, and refuses the empty string with `Empty` |
| StdText.NatToString | src/reader.rs:26 | the decimal text of a number is non-empty, all digits, and has that number as its value |
| StdText.ParseU64RoundTrip | src/reader.rs:26 | parsing the decimal text of any `u64` gives the number back |
| ChangeFilter.Track | src/reader.rs:54-60 | the change-filter loop sends at most one value per reading and nothing to a dead receiver |
| ChangeFilter.TrackRunsToEnd | src/reader.rs:54-60 | with a live receiver the loop runs to the end exactly when every reading succeeds; with a dead one, exactly when every reading equals the baseline |
| ChangeFilter.TrackOne | src/reader.rs:54-60 | one poll: an error stops with the baseline kept; an equal value does nothing; a different value is stored and sent, or stored and then stops the loop with `ChannelClosed` when the receiver is gone |
| ChangeFilter.TrackAppend | src/reader.rs:38-41 | running over two stretches of readings is running over the first, then, unless that stopped, over the second from where the first left the baseline; after a stop nothing more is read |
| ChangeFilter.TrackStep | src/reader.rs:38-41 | one more poll extends the run by that poll's own step, and a poll that stops the loop ends it for good |
| ChangeFilter.TrackStopsAtFirstError | src/lib.rs:110-111 | with a live receiver, the first failed reading ends the loop with its error, after exactly what the readings before it sent; nothing is retried |
| ChangeFilter.DestutterShape | src/reader.rs:57 | the reference filter keeps the first and the last element and never yields the same element twice in a row |
| ChangeFilter.DestutterNoRepeats | src/reader.rs:57 | a sequence with no repeat in a row is left as it is by the reference filter |
| ChangeFilter.ValuesSnoc | src/reader.rs:56 | one more successful reading appends its value to the values of the readings before it |
| ChangeFilter.DestutterSnoc | src/reader.rs:57 | the reference filter drops one more element exactly when it equals the element before it |
| ChangeFilter.TrackDestutters | src/reader.rs:54-60 | over readings that all succeed, with a live receiver, the baseline followed by what was sent is exactly the destuttering of the baseline followed by the readings, and the final baseline is the last reading |
| Channels.Channel.constructor | src/lib.rs:55 | a new channel has sent nothing and its receiver is alive |
| Channels.Channel.Send | src/reader.rs:45-51 | a send succeeds exactly when the receiver is alive, and then appends that one message; otherwise it fails with `ChannelClosed` and appends nothing |
| Types.ReadToString | src/lib.rs:47 | reading a path succeeds exactly when it is in the file system, with its contents; otherwise it fails with an I/O error on that path |
| Reader.ReadValue | src/reader.rs:56 | a reading succeeds exactly when the file exists and its trimmed text parses, with the parsed value; a missing file is an I/O error on the path, and a text that does not parse is a float error carrying the trimmed text |
| Reader.ReadValuePadded | src/reader.rs:25 | white space around the number in a value file does not change the reading |
| Reader.FromConfig | src/reader.rs:19-34 | `from_config` succeeds exactly when the value file reads and parses and `cycle_time_ms` is a `u64`; otherwise it fails, with the read error first and the interval error second; on success the name is the given one, the file path is `config.file`, the current value is the parsed reading, and the interval is the parsed number of milliseconds |
| Reader.FromConfigAcceptsZeroInterval | src/reader.rs:26 | an interval of `"0"` is accepted: there is no range check |
| Reader.Readings | src/reader.rs:56 | the reading of each poll is the read-trim-parse of the value file in that tick's file system |
| Reader.ValueMessages | src/reader.rs:47-50 | each value a reader sends becomes a `ValueChange` tagged with the reader's name, in order |
| Reader.ValueMessagesChain | src/reader.rs:47-50 | the messages for two stretches of values, sent one after the other, are the messages for the joined values |
| Reader.ReadStopsAtFirstFailedPoll | src/reader.rs:40 | with a live receiver, the first poll whose read or parse fails ends `read` with that error, after exactly what the polls before it sent; the current value is the one those polls left |
| Reader.DeviceReader.constructor | src/reader.rs:27-33 | the reader holds the fields `from_config` computed and the sender it was handed |
| Reader.DeviceReader.SendCurrentValue | src/reader.rs:44-52 | exactly `ValueChange(name, current_value)` is sent when the receiver is alive; the reader is not modified |
| Reader.DeviceReader.ReadContent | src/reader.rs:54-60 | the reader's new current value, the error and the messages sent are one step of the change filter over this poll's reading (cases in `TrackOne`) |
| Reader.DeviceReader.Read | src/reader.rs:36-42 | repeated polling leaves the current value, the error and the messages sent that the change filter gives over the readings of all the ticks |
| Tasks.NamesSnoc | src/lib.rs:157 | pushing a handle adds its device to the devices that have handles |
| Tasks.IdsSnoc | src/lib.rs:157 | pushing a handle adds its id to the ids of the handles |
| Tasks.IdsRange | src/lib.rs:157 | the ids of handles numbered consecutively from `firstId` are exactly those from `firstId` up to, not including, `firstId + len`; task ids exist only in the model, one per handle pushed here |
| Tasks.SnocFresh | src/lib.rs:157 | pushing a handle with the next id, for a device not yet handled, keeps the ids consecutive and the devices distinct |
| Tasks.SnocBuilt | src/lib.rs:141-157 | pushing a handle whose reader was built from its device's configuration keeps every handle's reader built that way |
| Tasks.ProgressSkip | src/lib.rs:141-147 | a device whose reader fails to initialise is skipped, and the loop goes on with exactly the handles it had |
| Tasks.ProgressSpawn | src/lib.rs:141-157 | a device whose reader initialises gets exactly one new handle, holding that reader, with the next id |
| Tasks.CreateTasks | src/lib.rs:134-160 | `create_tasks` yields exactly one handle per device whose `from_config` succeeds and none for any other device; each handle holds the reader built from its device's configuration; the ids are consecutive from `firstId`; there are at most as many handles as devices |
| Tasks.DeviceTask | src/lib.rs:148-156 | a task sends its initial value, then, whether or not that send failed, runs the poll loop; it ends with the poll loop's error, having sent the initial value when the receiver is alive, then what the change filter sends |
| Tasks.TaskSendsFirstThenChanges | src/lib.rs:150-153 | over polls that all succeed, with a live receiver, a task sends its initial value followed by every reading that differs from the value stored before it, in order |
| Config.LoadConfig | src/lib.rs:47-48 | loading the configuration succeeds exactly when `./asset_list.json` can be read and decoded, and then yields the decoded map; an unreadable file gives an I/O error on that path, and a bad decode gives `InvalidJson` |
| Watcher.Loads | src/lib.rs:110-111 | the load of each tick is the read and decode of `./asset_list.json` in that tick's file system |
| Watcher.ConfigMessages | src/lib.rs:114 | each device set the watcher sends becomes one `ConfigChange`, in order |
| Watcher.ConfigMessagesChain | src/lib.rs:114 | the messages for two stretches of device sets, sent one after the other, are the messages for the joined sets |
| Watcher.ConfigWatcher.constructor | src/lib.rs:66-68 | the watcher starts with the given device set as its baseline, and the given sender |
| Watcher.ConfigWatcher.Tick | src/lib.rs:109-115 | the new baseline, the error and the messages sent are one step of the change filter over this tick's load (cases in `TrackOne`) |
| Watcher.ConfigWatcher.Watch | src/lib.rs:102-117 | the watcher loop leaves the baseline, the error and the messages sent that the change filter gives over the loads of all the ticks |
| Watcher.WatchSendsEveryChange | src/lib.rs:108-116 | while every load succeeds, with a live receiver, the watcher never stops; the first baseline followed by the sets sent is the destuttering of the first baseline followed by the loads, so exactly the loads that differ from the previous baseline are sent |
| Watcher.WatchStopsAtFirstFailedLoad | src/lib.rs:110-111 | with a live receiver, the first tick whose read or decode fails ends the watcher with that error, after exactly what the ticks before it sent; it never retries |
| Control.Apply | src/lib.rs:73-97 | a `ValueChange` sets that device's entry to its value and leaves every other entry as it was, whether or not the device is in the current set; a `ConfigChange` empties the map |
| Control.ReplayForgetsBeforeConfigChange | src/lib.rs:85-96 | after a `ConfigChange`, the values map holds only what the later messages put there, whatever came before |
| Control.ReplayKeys | src/lib.rs:74-80 | without a `ConfigChange`, the map holds its initial entries and one for every device a message came from, nothing else |
| Control.ReplayLatest | src/lib.rs:74-80 | without a `ConfigChange`, the value of a device is the one carried by the last message from it |
| Control.ReplayUntouched | src/lib.rs:74-80 | without a `ConfigChange`, a device no message came from keeps its value |
| Control.ReplayStep | src/lib.rs:72-73 | handling one more message applies that message to the map the earlier ones left |
| Control.ActiveStep | src/lib.rs:85-95 | one more message changes the device set of the running tasks exactly when it is a `ConfigChange` |
| Control.Controller.RunningNotAborted | src/lib.rs:88 | no task whose handle the controller holds has been aborted |
| Control.Controller.constructor | src/lib.rs:49-51 | a new controller holds the given device set, an empty values map, no handles and no aborted tasks |
| Control.Controller.New | src/lib.rs:46-52 | `Controller::new` fails exactly when the configuration cannot be read or decoded, with that error; otherwise the controller holds the decoded device set and an empty values map |
| Control.Controller.AbortAll | src/lib.rs:88 | every held task is aborted, and nothing else changes |
| Control.Controller.HandleMessage | src/lib.rs:73-97 | the values map becomes `Apply` of the message; a `ValueChange` touches nothing else; a `ConfigChange` aborts every task held before, even one whose device is unchanged, and then holds exactly the handles `create_tasks` gives for the new set, with fresh ids; the aborted tasks stay exactly those older than the held ones |
| Control.Controller.Controll | src/lib.rs:54-98 | after the start-up tasks and the received messages, the values map is the replay of the messages; the handles are exactly those spawned for the device set of the last `ConfigChange` (or the start-up set), none of them aborted; every other task spawned meanwhile, start-up tasks included, has been aborted, and no task besides those and the ones aborted before |

## Left out

- Scheduling, `task::spawn` and `time::interval` timing are left out: the
  cadence of the ticks, the panic of `interval` on a zero period, and an
  abort taking effect in the middle of an `await`. The model is sequential,
  and an aborted task is only recorded as aborted.
- Channel capacity and backpressure (`mpsc::channel(100)`) are left out,
  and so is the interleaving of messages from different senders. That
  includes messages an aborted task had queued, which can arrive after the
  map was cleared. The controller's inbox is a given sequence, and each
  task's outbox is modelled on its own.
- `print_total` is left out: a floating-point sum, a mutex, a timestamp and
  printing.
- Floating point is left out. The value type is a parameter with equality,
  and `f64::from_str` is the parameter `parse`. NaN and float equality are
  not modelled.
- `serde_json` decoding is left out: it is the parameter `decode`.
  `fs::read_to_string` is a lookup in a file-system snapshot, so any read
  error is `Io(path)`.
- The payloads of `Io(path)` and `InvalidFloat(text)` belong to the model:
  the source's `io::Error` carries no path and its `ParseFloatError` only a
  kind. The errors are only printed, so nothing depends on them.
- `println!` logging is left out. The errors it reports are returned or
  dropped exactly where the source drops them.
- src/main.rs is not part of this model. It calls `Controller::new` and
  then either runs the controller or prints the error.
- Tasks.CreateTasks: all devices are initialised against one file-system
  snapshot, not a fresh one per device. Devices are visited in an
  unspecified order, as in a `HashMap`, so the order of the handles is not
  pinned down. Only the set of devices and the consecutive ids are.
- Tasks.DeviceTask, Reader.DeviceReader.Read, Watcher.ConfigWatcher.Watch
  and Control.Controller.Controll run over finite traces. That the source
  loops forever, until an error or until the receive loop ends, is stated
  as "a `None` result means still running".
- Task ids (`Handle.id`, `aborted`, `nextId`) exist only in the model. The
  source identifies a task by its `JoinHandle`.
- Control.Controller: the `tx` sender that `controll` threads through
  `create_tasks` is not modelled, because it is only handed back unchanged.
  The watcher and the `print_total` task that `controll` spawns are
  modelled separately (`Watcher`) or left out.
