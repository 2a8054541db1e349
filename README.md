# alarm-mesh in Dafny

alarm-mesh is a shared alarm clock. One host (with a web form, an LCD, a
buzzer and a snooze button) holds the single scheduled alarm and is the
server of a small mesh of nodes (each with an LED and a snooze button).
The host fires the alarm at its minute. Each node finds the host over
zeroconf and keeps one TCP connection to it. Host and nodes talk in
newline-terminated JSON events: ALARM_SET, ALARM_TRIGGERED, ALARM_CLEARED,
HEARTBEAT, SNOOZE_PRESSED and ACK.

While the alarm rings, every snooze press on any device is meant to
count, and once the presses reach the number of devices (the connected
nodes plus the host) the alarm is to be cleared and dropped. As written,
no press ever clears it: the host passes a node's address where
`handle_snooze` expects the node count (src/host/app.py:75), and the host
button calls a method that does not exist (src/host/app.py:85). The model
states the routing both as written and as intended. Nodes that send no
heartbeat for more than 60 seconds are removed from the host's table.

This project models the sequential core of that system and proves what it
promises. The modules are:

- `Wrappers`: `Option` and `Result`.
- `Text`: decimal rendering (`str(n)`), two-digit padding, the "H:MM AM"
  clock text with a parser that reads it back, and one-character
  join/split.
- `Protocol` (`src/common/comms/protocol.py`): the event types and their
  integer values. It also holds the 12-hour `Alarm`, which is valid by
  construction, with its dict form, 24-hour conversion, next trigger
  instant and text. Finally it holds `AlarmEvent` with its default
  timestamp and its dict/JSON codec.
- `Framing`: the `while "\n" in buffer` splitter shared by both receive
  loops. It also decodes the split lines in order, up to the first line
  that fails.
- `AlarmManagement` (`src/host/alarm_manager.py`): the alarm state machine,
  first as a pure `Session` value with one function per transition, then as
  the `AlarmManager` class. The class's methods update its fields in place
  and append to an event log, which stands for the broadcast callback.
- `HostServer` (`src/common/comms/host_server.py`): the class `AlarmHost`
  and its `clients` table. It covers accept, heartbeat refresh, one read of
  a node's stream, disconnect, the timeout sweep, broadcast and the node
  count.
- `HostApp` (`src/host/app.py`): the web form's 24-to-12-hour conversion,
  the scheduler tick and a run of ticks one second apart, `handle_event`
  routing, and the local button's guard.
- `NodeApp` (`src/client/app.py`): the node's reaction to events (the
  `alarm_triggered` flag and an abstract LED), its receive loop and its
  snooze-button guard.
- `TimeDisplay` (`src/common/io/time_display.py`): the two LCD lines.
- `NodeClient` (`src/common/comms/node_client.py`): the discovery state and
  the dotted-decimal address.

Time is an integer count of microseconds on the device's local clock, with
no daylight-saving changes. A day is 86 400 s. It starts at
`now - now % day`. The current time is a parameter wherever the source
calls `time.time()` or `datetime.now()`. JSON text is a pair of functions
(`Json.dumps`, `Json.loads`) given as a parameter. What the model needs of
it is stated as `SoundJson`: `loads` undoes `dumps`, and `dumps` writes no
raw newline. Each lock-guarded block is one atomic step.

## Model

| member | source | states |
|---|---|---|
| Protocol.TypeOfValue | src/common/comms/protocol.py:7-13 | `EventType(v)` succeeds exactly for v in 1..6, and the member found has value v |
| Protocol.TypeValue | src/common/comms/protocol.py:7-13 | the value of an event type is in 1..6; `TypeValueRoundTrip` states that it identifies the type |
| Protocol.TypeValueRoundTrip | src/common/comms/protocol.py:7-13 | `EventType(t.value) == t` for all six types |
| Protocol.NewAlarm | src/common/comms/protocol.py:22-27 | construction succeeds iff 1 <= hours <= 12 and 0 <= minutes <= 59, keeping the fields; an out-of-range hour is reported before a bad minute |
| Protocol.AlarmFromDict | src/common/comms/protocol.py:32-38 | a successful `from_dict` took hours and minutes from the dict's integer entries, and is PM exactly when the dict holds `is_pm: True` |
| Protocol.AlarmToDict | src/common/comms/protocol.py:29-30 | `to_dict` (no contract of its own); `AlarmDictRoundTrip` states that `from_dict` reads it back |
| Protocol.AlarmDictRoundTrip | src/common/comms/protocol.py:29-38 | `from_dict(to_dict(a)) == a` for every valid alarm |
| Protocol.AlarmFromDictDefaultsToAm | src/common/comms/protocol.py:37 | a dict with no `is_pm` key gives an AM alarm |
| Protocol.Hour24 | src/common/comms/protocol.py:40-60 | the hour is in 0..23, the minute is unchanged, the hour is below 12 exactly for AM, and it agrees with the 12-hour hour modulo 12 (12 AM is 0, 12 PM is 12, 1-11 PM is h+12) |
| Protocol.Hour24Injective | src/common/comms/protocol.py:47-58 | distinct valid alarms have distinct 24-hour times |
| Protocol.NextTrigger | src/common/comms/protocol.py:62-73 | the next trigger is strictly after now, at most one day after now, and falls on second 0 of the alarm's hh:mm |
| Protocol.AlarmText | src/common/comms/protocol.py:75-78 | `str(alarm)` (no contract of its own); `AlarmTextRoundTrip` states what it reads back as |
| Protocol.AlarmTextRoundTrip | src/common/comms/protocol.py:75-78 | `str(alarm)` reads back as its hours, minutes and period, and is 7 or 8 characters long |
| Text.ClockTextRoundTrip | src/common/comms/protocol.py:78 | the text "H:MM AM/PM", with the hour unpadded and the minute padded to two digits, parses back as (hour, minute, period) |
| Text.ClockTextCanonical | src/common/comms/protocol.py:78 | every text that parses as a clock is the clock text of what it parses as, so the format is unambiguous |
| Text.DecimalTextRoundTrip | src/common/comms/protocol.py:78 | `str(n)` is a non-empty digit string that reads back as n and starts with '0' only for 0 |
| Text.DecimalTextCanonical | src/common/comms/protocol.py:78 | a digit string without a leading zero is `str` of its value |
| Protocol.NewEvent | src/common/comms/protocol.py:86-88 | an event built without a timestamp gets now; a given timestamp is kept; type and data are kept |
| Protocol.TypeOfJsonValue | src/common/comms/protocol.py:98 | `EventType(raw["type"])`: an integer is looked up as `TypeOfValue` says, `true` is ALARM_SET and `false` is rejected (Python compares booleans as 1 and 0), and every other JSON value is rejected |
| Protocol.EventToPayload | src/common/comms/protocol.py:90-92 | the `to_json` payload (no contract of its own); `EventPayloadRoundTrip` states that decoding it gives the event back |
| Protocol.EventFromPayload | src/common/comms/protocol.py:95-99 | a decoded event came from an object whose "type" reads as the event's type (an integer value, or `true` for ALARM_SET), and whose keys are only type, data and timestamp |
| Protocol.BooleanTypeValues | src/common/comms/protocol.py:95-99 | a payload whose type is `true` decodes to ALARM_SET, and one whose type is `false` is rejected as an unknown type |
| Protocol.EventWithoutTimestampGetsNow | src/common/comms/protocol.py:95-99 | a payload with only a type decodes to that type with no data, stamped with the receiver's now |
| Protocol.EventPayloadRoundTrip | src/common/comms/protocol.py:90-99 | building an event from its own `to_json` payload gives the same event, whatever the receiver's clock says |
| Protocol.EventToJson | src/common/comms/protocol.py:90-93 | `to_json` over the JSON layer (no contract of its own); `EventJsonRoundTrip` states the round trip |
| Protocol.EventFromJson | src/common/comms/protocol.py:95-99 | `from_json` over the JSON layer (no contract of its own); `EventJsonRoundTrip` states the round trip and `DecodePrefix` what a run of lines decodes to |
| Protocol.EventJsonRoundTrip | src/common/comms/protocol.py:90-99 | over a sound JSON layer, `from_json(to_json(e)) == e`, and the text holds no newline |
| AlarmManagement.Session.Set | src/host/alarm_manager.py:22-31 | the alarm is scheduled and nothing rings; exactly one ALARM_SET carrying `alarm.to_dict()` is emitted |
| AlarmManagement.Session.Remove | src/host/alarm_manager.py:33-41 | no alarm and nothing ringing; exactly one ALARM_CLEARED with empty data |
| AlarmManagement.Session.Trigger | src/host/alarm_manager.py:43-54 | while ringing, nothing changes and nothing is emitted; otherwise the session starts ringing with count 0, keeps its scheduled alarm and emits one ALARM_TRIGGERED carrying the alarm |
| AlarmManagement.Session.Snooze | src/host/alarm_manager.py:56-74 | a no-op while silent; while ringing, the press is counted and the alarm keeps ringing exactly while the count stays below nodes + 1; reaching it gives no alarm, nothing ringing, count 0 and one ALARM_CLEARED; the count is 0 whenever nothing rings |
| AlarmManagement.Session.SnoozeNonNumeric | src/host/alarm_manager.py:56-63 | `handle_snooze` called with an address as the count: while silent it returns with nothing changed and nothing raised; while ringing the press is counted, then `addr + 1` raises, the alarm keeps ringing and nothing is emitted; the invariant is kept |
| AlarmManagement.SwappedSnoozeKeepsRinging | src/host/app.py:75 | with one node, the intended call clears the alarm on the second press; with the arguments swapped, every press while ringing raises and leaves the alarm ringing with nothing emitted, whatever the count |
| AlarmManagement.SnoozesBelowQuorum | src/host/alarm_manager.py:62-68 | presses that keep the count at most the node count only increment it and emit nothing |
| AlarmManagement.QuorumClearsOnPressAfterNodes | src/host/alarm_manager.py:62-74 | right after a trigger with n nodes, the first n presses leave the alarm ringing with nothing emitted, and press n+1 clears it and drops it with exactly one ALARM_CLEARED |
| AlarmManagement.TriggerIsNotReentrant | src/host/alarm_manager.py:45-48 | a second trigger after a first is ignored: at most one ALARM_TRIGGERED goes out from the two |
| AlarmManagement.EpisodeEmitsTriggeredThenCleared | src/host/alarm_manager.py:43-74 | a trigger followed by n+1 presses with n nodes emits exactly ALARM_TRIGGERED then ALARM_CLEARED and ends with no alarm |
| AlarmManagement.AlarmManager.constructor | src/host/alarm_manager.py:16-18 | no alarm, nothing ringing, count 0, nothing emitted |
| AlarmManagement.AlarmManager.SetAlarm | src/host/alarm_manager.py:22-31 | the fields become (alarm, false, 0) and the log gains exactly ALARM_SET with the alarm's dict, as `Session.Set` says |
| AlarmManagement.AlarmManager.RemoveAlarm | src/host/alarm_manager.py:33-41 | the fields become (None, false, 0) and the log gains exactly ALARM_CLEARED with `{}`, as `Session.Remove` says |
| AlarmManagement.AlarmManager.TriggerAlarm | src/host/alarm_manager.py:43-54 | unchanged when already active; otherwise active with count 0, the alarm kept, and one ALARM_TRIGGERED logged, as `Session.Trigger` says |
| AlarmManagement.AlarmManager.HandleSnooze | src/host/alarm_manager.py:56-74 | the three cases of `handle_snooze` on the fields and the log, as `Session.Snooze` says; the invariant is preserved |
| AlarmManagement.AlarmManager.HandleSnoozeNonNumeric | src/host/alarm_manager.py:56-63 | the two cases of that call on the fields and the log, as `Session.SnoozeNonNumeric` says, with whether it raised |
| AlarmManagement.AlarmManager.IsAlarmActive | src/host/alarm_manager.py:76-79 | returns `alarm_active` |
| AlarmManagement.AlarmManager.GetCurrentAlarm | src/host/alarm_manager.py:81-84 | returns `current_alarm` |
| Framing.SplitLines | src/common/comms/host_server.py:80-81 | the split loop as a function (no contract of its own); `SplitLinesSound` and `SplitLinesUnique` state what it computes |
| Framing.SplitPackets | src/common/comms/host_server.py:80-81 | the split loop leaves packets without "\n" and a tail without "\n", and the packets each followed by "\n", then the tail, are the buffer, in order |
| Framing.SplitLinesSound | src/common/comms/host_server.py:80-81 | the same three facts for the split as a function |
| Framing.SplitLinesUnique | src/common/comms/host_server.py:80-81 | those three facts determine the packets and the tail |
| Framing.SplitLinesIncremental | src/common/comms/host_server.py:74-81 | chunks may be cut anywhere: splitting chunk by chunk, carrying the tail along, gives the same packets and tail as splitting everything at once |
| Framing.FramesReadBack | src/common/comms/host_server.py:127 | lines written one per frame are read back as exactly those lines with an empty tail |
| Framing.DecodePrefix | src/common/comms/host_server.py:80-82 | the events decoded are the successful `from_json` of the first packets, in order, and when the loop stops early the next packet is the one that failed |
| Framing.TwoEventsReassemble | src/common/comms/host_server.py:74-82 | two events sent back to back, with the stream cut anywhere into two reads, give exactly their two lines in order, an empty tail, and decode to the two events in order |
| HostServer.Alive | src/common/comms/host_server.py:110-113 | an entry survives a sweep exactly when now - last_heartbeat <= 60 s, unchanged |
| HostServer.SilentPeerTimesOut | src/common/comms/host_server.py:103-121 | a node accepted at t0 that never sends a heartbeat survives every sweep up to t0 + 60 s, and no sweep after that |
| HostServer.Refreshed | src/common/comms/host_server.py:85-89 | the table after a read's heartbeats (no contract of its own); `RefreshedSnoc` states how each event changes it and `AlarmHost.HandlePackets` that the method leaves exactly it |
| HostServer.AlarmHost.constructor | src/common/comms/host_server.py:17 | the table starts empty |
| HostServer.AlarmHost.Accept | src/common/comms/host_server.py:56-60 | addr is registered with its connection and heartbeat now, replacing any earlier entry; other entries are kept |
| HostServer.AlarmHost.Disconnect | src/common/comms/host_server.py:97-101 | removes exactly addr, if present |
| HostServer.AlarmHost.RecordHeartbeat | src/common/comms/host_server.py:86-89 | a registered addr's last heartbeat becomes now; an unregistered addr changes nothing |
| HostServer.AlarmHost.HandlePackets | src/common/comms/host_server.py:80-93 | every decoded event, heartbeats included, goes to the handler with its addr in arrival order; the table is refreshed if a heartbeat came from a registered addr; the result says whether every packet decoded |
| HostServer.AlarmHost.Receive | src/common/comms/host_server.py:70-101 | one read: an empty read ends the stream; otherwise the complete lines of buffer + data are handled as `HandlePackets` says and the tail is kept; when the loop ends the node is removed |
| HostServer.AlarmHost.Sweep | src/common/comms/host_server.py:103-121 | the table becomes exactly the entries heard from at most 60 s ago, and the entries removed are the ones returned |
| HostServer.AlarmHost.Broadcast | src/common/comms/host_server.py:126-134 | every registered node gets `to_json() + "\n"` exactly once, nobody else gets anything, and the table is not modified |
| HostServer.AlarmHost.ConnectedNodesCount | src/common/comms/host_server.py:136-139 | the number of entries in the table |
| HostServer.BroadcastFrameReadBack | src/common/comms/host_server.py:126-127 | over a sound JSON layer, a node splitting a broadcast frame gets one line that decodes to the event sent |
| HostApp.To12Hour | src/host/app.py:41-52 | hour24 0..23 becomes hour12 1..12 that agrees with hour24 modulo 12, PM exactly from hour 12 (0 is 12 AM, 12 is 12 PM, 13-23 are h-12 PM) |
| HostApp.FormAlarm | src/host/app.py:41-54 | the form's alarm passes validation, and `get_24hr_time` of it is the submitted (hour24, minute) |
| HostApp.FormAlarmOfHour24 | src/host/app.py:41-54 | converting an alarm's 24-hour time back through the form gives the alarm, so the two conversions are inverse |
| HostApp.SubmitForm | src/host/app.py:54-56 | the manager's new state and events are those of `set_alarm` on the converted alarm, which shows the submitted time |
| HostApp.TodayAt | src/host/app.py:128-135 | today's hh:mm:00 of the alarm: the same day as now, at the alarm's offset from midnight |
| HostApp.TickDecision | src/host/app.py:121-138 | nothing fires while the alarm rings or none is set; otherwise the scheduled alarm fires exactly when now is less than one second from today's hh:mm:00 |
| HostApp.FiredTickBlocksNextTick | src/host/app.py:121-122 | after a tick fires, no later tick fires until the episode ends |
| HostApp.Ticks | src/host/app.py:116-139 | a run of scheduler iterations one second apart (no contract of its own); the lemmas below state what it does |
| HostApp.TicksOutsideWindow | src/host/app.py:128-138 | ticks none of which is within one second of hh:mm:00 of its own day change nothing and emit nothing |
| HostApp.TicksAfterFiring | src/host/app.py:121-122 | once a tick has started the alarm ringing, the later ticks of the run change nothing |
| HostApp.OneSecondPollingFiresOnce | src/host/app.py:116-139 | polling once a second from any start triggers a silent scheduled alarm exactly once, at the first tick within one second of hh:mm:00 of that tick's own day, with one ALARM_TRIGGERED in all |
| HostApp.FirstTickInWindow | src/host/app.py:116-119 | a one-second polling run that starts no later than hh:mm:00 has a tick in the last second up to it |
| HostApp.EarlyTickOutsideWindow | src/host/app.py:128-138 | a tick of the alarm's day a second or more before hh:mm:00 does not fire |
| HostApp.PollingThroughTheMinuteFires | src/host/app.py:116-139 | a run that starts on the alarm's day no later than hh:mm:00 and reaches it fires once, at the tick in the last second up to hh:mm:00 |
| HostApp.MidnightAlarmFiresAtMidnight | src/host/app.py:128-138 | a 12:00 AM alarm polled from 23:59:58 is not fired by the two ticks before midnight, which compare with the midnight that began their own day, and fires at 00:00:00 of the next day |
| HostApp.SchedulerTick | src/host/app.py:116-139 | one scheduler iteration fires exactly when `TickDecision` says so, then acts as `trigger_alarm`, and otherwise leaves the manager unchanged |
| HostApp.HandleEvent | src/host/app.py:72-75 | as written: only SNOOZE_PRESSED reaches `handle_snooze`, with the address in the count's place, so a press while ringing is counted and then raises, as `Session.SnoozeNonNumeric` says, and never clears the alarm; every other type leaves the manager untouched |
| HostApp.HandleEventCorrected | src/host/app.py:72-75 | as intended: only SNOOZE_PRESSED reaches `handle_snooze`, with the current node count, as `Session.Snooze` says; every other type leaves the manager untouched |
| HostApp.HostButtonPoll | src/host/app.py:82-85 | a host snooze is requested exactly when the alarm is active, a button is present and it reads pressed |
| NodeApp.React | src/client/app.py:28-55 | ALARM_SET turns the LED on and keeps the flag; ALARM_TRIGGERED sets the flag and blinks; ALARM_CLEARED clears the flag and turns the LED off; without an LED the LED state is kept; every other type changes nothing |
| NodeApp.OtherEventsAreIgnored | src/client/app.py:28-55 | dropping HEARTBEAT, SNOOZE_PRESSED and ACK from a read leaves the outcome unchanged |
| NodeApp.ReactAll | src/client/app.py:23-55 | the node's reaction to a run of events (no contract of its own); `ReactAllAppend`, `OtherEventsAreIgnored` and `LastEventDecides` state its properties |
| NodeApp.ReactAllAppend | src/client/app.py:23-55 | handling two runs of events one after the other is handling their concatenation |
| NodeApp.LastEventDecides | src/client/app.py:38-55 | after a read whose last event is ALARM_TRIGGERED the node is ringing, and after ALARM_CLEARED it is not, whatever came before |
| NodeApp.Node.constructor | src/client/app.py:96-109 | the node starts silent with the LED off, records which of button and LED are present, and has sent nothing |
| NodeApp.Node.HandleEvent | src/client/app.py:28-55 | the flag and the LED change as `React` says for the event's type |
| NodeApp.Node.HandleLines | src/client/app.py:23-55 | the decoded packets are handled in arrival order up to the first that fails, and the result says whether all decoded |
| NodeApp.Node.Receive | src/client/app.py:12-25 | an empty read ends the loop with nothing changed; otherwise the tail of buffer + data holds no "\n", and the complete lines are handled as `HandleLines` says |
| NodeApp.Node.ButtonPoll | src/client/app.py:61-70 | SNOOZE_PRESSED with `{"node": "client"}` is sent exactly when the alarm is triggered, a button is present and it reads pressed |
| TimeDisplay.Strftime | src/common/io/time_display.py:14 | `strftime("%I:%M %p")` (no contract of its own); `TimeLineIsClockText` states what the time line made from it reads |
| TimeDisplay.TimeLine | src/common/io/time_display.py:12-18 | the time line (no contract of its own); `TimeLineIsClockText`, `TimeLineOfAlarmTime` and `TimeLineHasNoNewline` state its properties |
| TimeDisplay.AlarmLine | src/common/io/time_display.py:20-25 | the alarm line (no contract of its own); `AlarmLineInjective` and `AlarmLineHasNoNewline` state its properties |
| TimeDisplay.Render | src/common/io/time_display.py:27-29 | `str(display)` (no contract of its own); `RenderIsTwoLines` states its form |
| TimeDisplay.TimeLineIsClockText | src/common/io/time_display.py:12-18 | the time line is "H:MM AM/PM" with the hour unpadded in 1..12: 0 is 12 AM, 1-11 stay AM, 12 is 12 PM, 13-23 are h-12 PM |
| TimeDisplay.TimeLineOfAlarmTime | src/common/io/time_display.py:12-18 | at the alarm's own 24-hour time the time line reads exactly as the alarm's `str` |
| TimeDisplay.AlarmLineInjective | src/common/io/time_display.py:20-25 | the alarm line tells alarms apart, and "No Alarm" from every alarm |
| TimeDisplay.TimeLineHasNoNewline | src/common/io/time_display.py:12-18 | the time line holds no newline |
| TimeDisplay.AlarmLineHasNoNewline | src/common/io/time_display.py:20-25 | the alarm line holds no newline |
| TimeDisplay.RenderIsTwoLines | src/common/io/time_display.py:27-29 | `str(display)` holds exactly one "\n", and splitting at it gives the time line and the alarm line |
| NodeClient.Fields | src/common/comms/node_client.py:30-31 | one decimal field per byte of the address, in order |
| NodeClient.DecodeIp | src/common/comms/node_client.py:30-31 | an address is rendered exactly when the record lists one |
| NodeClient.DottedReadsBack | src/common/comms/node_client.py:30-31 | a rendered address has one dot fewer than it has bytes, and its fields are decimal numbers that read back as the bytes |
| NodeClient.DottedQuad | src/common/comms/node_client.py:30-31 | a 4-byte address renders as four decimal fields of 0..255 joined by exactly three dots |
| NodeClient.AlarmNode.constructor | src/common/comms/node_client.py:4-11 | no host known yet |
| NodeClient.AlarmNode.OnServiceStateChange | src/common/comms/node_client.py:13-28 | Added with service info sets host_ip from the first address and host_port from the info; Added with an info listing no address raises and changes nothing; Added without info and any other change keep both fields; Removed sets both to None |

## Left out

- Sockets, zeroconf registration and browsing, Flask rendering, GPIO, the LCD, the buzzer and all `time.sleep` calls are I/O. They are left out. Received chunks and sent frames are parameters and results.
- Threads and locks are left out. Each lock-guarded block is one atomic step, so interleavings between threads are not modelled.
- The `running` flag and the outer `while` loops of the threads are left out. One iteration is modelled (`Receive`, `Sweep`, `SchedulerTick`, `HostButtonPoll`, `Node.ButtonPoll`), and `Ticks` models a run of scheduler iterations.
- Float timestamps, `datetime.now()`, time zones and daylight-saving changes are left out. Time is integer microseconds on a DST-free local timeline, so a `replace` across a DST change is not modelled.
- `json.dumps`/`json.loads` are abstract, and JSON text is not modelled. Only what the codec does with the type value and the other fields is modelled.
- Protocol.AlarmFromDict: rejects a non-bool `is_pm` as `WrongType`. Python stores any value there and later treats it by truthiness.
- Protocol.AlarmFromDict: rejects a boolean hour or minute as `WrongType`. Python accepts them as 1 and 0 (so `True` passes as an hour, and both pass as a minute), and `str` then shows a `True` hour as "True". A float field is not modelled either.
- Protocol.EventFromPayload: a timestamp that is neither null nor an integer is rejected as `BadTimestamp`. Python keeps any value, and floats are outside the model.
- `AlarmEvent.data` defaults to `None`, which is modelled as `VNull`. JSON values other than null, booleans, integers, strings and objects are not modelled.
- HostServer.AlarmHost.Broadcast: the iteration order over the table, and which `sendall` calls fail, are not modelled. Failures are swallowed in the source and change nothing.
- HostServer.AlarmHost.Receive: a chunk is taken as already decoded text. A UTF-8 decode error, which also ends the loop in the source, is not modelled separately.
- The host's `event_handler` may be `None`. This is not modelled: every decoded event is logged as handed to the handler.
- `update_display` (src/host/app.py:94-113) is left out. It only writes `TimeDisplay`'s two lines to the LCD, and those lines are modelled in `TimeDisplay`.
- `stop`, `start`, `start_advertising` and `start_tcp_server` are left out. They only manage sockets and zeroconf.
- HostApp.HandleEvent: models src/host/app.py:75 as written, with the address in the count's place. While the alarm rings, `addr + 1` raises after the press was counted, and the method reports this as `raised`. In the source the error ends that node's receive loop through its bare `except` (src/common/comms/host_server.py:94-95), and the node is disconnected. This path is not joined to `HostServer`, whose handler is abstract. HostApp.HandleEventCorrected is the routing with the arguments in their defined order.
- HostServer.AlarmHost.HandlePackets: the handler is taken never to raise, so every decoded event of a read is handed on. A handler that raises, such as the host's `handle_event` while ringing, would end the loop and disconnect the node; that is not modelled. HostServer.AlarmHost.Receive inherits this.
- One `now` per call stands for every `time.time()` the call makes. The heartbeat refresh (src/common/comms/host_server.py:89) and the default timestamps of the events decoded in one read (src/common/comms/protocol.py:88) all get the same instant.
- TimeDisplay.Strftime: `%p` depends on the locale. The model writes the C locale's "AM" and "PM".
- src/host/app.py:85 calls `handle_host_snooze`, which `AlarmManager` does not define. HostApp.HostButtonPoll therefore models only the guard, and reports whether a host snooze is requested.
- src/client/app.py uses `node.connected`, `node.socket`, `node.send`, `node.is_alarm_triggered` and `node.start_discovery`. `AlarmNode` in src/common/comms/node_client.py defines none of them. The node model keeps its own flag and an outbox of sent events instead.
- src/host/app.py:62 and :160 use an `LCD` class and `lcd.write`, which src/common/io/lcd.py does not define. The LCD is left out.
- `node.alarm_triggered` (src/client/app.py) and `host_ip`/`host_port` (src/common/comms/node_client.py) are never initialised in the source. Both models start them as false and None.
- `set_alarm` cancels an episode that is ringing (src/host/alarm_manager.py:26-27), and the model follows the code.
- A line that fails to decode ends the connection in the code (the exception leaves the loop at src/common/comms/host_server.py:94-95), and the model follows that.
- src/client/main.py and the drivers in src/common/io/led.py, button.py, buzzer.py and lcd.py are not part of this model. They are hardware and I/O.

## Findings

| source | as written | input that shows it | evidently intended | confidence | as-written member | corrected member |
|---|---|---|---|---|---|---|
| src/host/app.py:75 | `handle_snooze(addr, host.get_connected_nodes_count())` passes the address as the node count | a SNOOZE_PRESSED from a node while the alarm rings, with one node connected: the press is counted, `addr + 1` raises, and the alarm keeps ringing (`AlarmManagement.SwappedSnoozeKeepsRinging`) | `handle_snooze(host.get_connected_nodes_count(), addr)`, so the second press clears the alarm | not executed | HostApp.HandleEvent | HostApp.HandleEventCorrected |
