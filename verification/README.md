# RichardView lab dashboard: scheduler, widget framework and device codecs

RichardView is a Tkinter dashboard for laboratory hardware. Each device is a
widget with named fields; a serial control widget polls every widget on a
fixed cycle (query, then read half a cycle later); an automation widget runs
scripts of timed steps that set fields on other widgets. This project models,
as pure Dafny functions over immutable records:

- the automation scheduler (`Automation`): the three script primitives, load,
  start, pause, stop and the one-second tick, with the wall clock passed in as
  integer seconds and `root.after` turned into a returned delay;
- the generic widget (`GenericWidget`): the field registry and its shared
  `StringVar` slots, logging, the update-cycle counter that gates queries and
  reads, `open_serial`/`close_serial`, and the FIFO send queue;
- the dashboard registry (`Dashboard`): widgets in order, the nickname map,
  `get_field`/`set_field` with confirm, and the font and frame clamps;
- the serial control widget (`SerialControl`): the connect toggle, the polling
  cycle, failure flags, and the numeric ordering of `COMn` port names;
- the device protocols: the MKS mass flow controller and its emulator
  (`MksMfc`, `MksMfcEmulator`), the Aalborg DPC controller and DPM meter with
  their emulators (`AalborgDpc`, `AalborgDpcEmulator`, `AalborgDpm`,
  `AalborgDpmEmulator`), the Valco two- and eight-way valves (`ValcoTwoWay`,
  `ValcoEightWay`), the Omega USB-UTC thermocouple reader (`OmegaUtc`), the IoT
  relay (`IotRelay`) and the Picarro CRD analyser (`PicarroCrd`).

Python's semantics are written out where the code relies on them.
`PyText` covers `str.index`, slicing with negative bounds, `replace`,
`split`, `int()`, `float()` acceptance for `str` and for bytes, `str(int)` and `str(bytes)`.
`PyMath` covers `%` and `int(a/b)`. Several parsers work on the text that
`str(bytes)` produces, for example `b'>25\r\n'` with a literal backslash.
The model parses that same text.

Float formatting (`"{:.1f}"`, `"{:.2e}"`, `round`) is left to function
parameters (`show`, `fmt2`, `sci`, `render`). The random draws of the
emulators are parameters too. Every property holds for all of them.

Where the code and its documentation disagree, the model follows the code:

- The Picarro emulator's line goes through `str(bytes)`, which adds a leading
  `b'` and a trailing `\r'` word. The line therefore splits into seven words,
  and offline reads succeed (`PicarroCrd.EmulatorReadAccepted`).
- A failed script load keeps the steps queued before the error.
- `schedule_delay` accepts negative parts.
- After a step fires, the countdown is the next step's raw delay.

## Model

| member | source | states |
|---|---|---|
| `Automation.NewAutomation` | richardview/_system/_automation_widget.py:51-61 | A new scheduler is paused, consistent, and holds no steps and no pending delay. |
| `Automation.ParseDelay` | richardview/_system/_automation_widget.py:87-89 | A delay parses exactly when it splits on `:` into three parts that are all integers; any other count of parts fails. When it parses, the value is 3600h + 60m + s of the parts' `int()` values; `ParseDelayDigits` gives that value for the zero-padded `hh:mm:ss` form. |
| `Automation.ParseDelayShow` | richardview/_system/_automation_widget.py:87-89 | `str(h):str(m):str(s)` parses to 3600h+60m+s for all integers, negative parts included. |
| `Automation.ParseDelayDigits` | richardview/_system/_automation_widget.py:84-89 | The documented `hh:mm:ss` form, leading zeros allowed, reads as 3600×hh + 60×mm + ss of the digits' values. |
| `Automation.PaddedDelay` | richardview/_system/_automation_widget.py:84-89 | `"0:00:05"` schedules five seconds. |
| `Automation.FieldsOfThree` | richardview/_system/_automation_widget.py:88 | Three colon-free pieces joined by `:` split back into exactly those pieces. |
| `Automation.ScheduleDelay` | richardview/_system/_automation_widget.py:87-89 | Succeeds iff the delay parses; then the pending accumulator grows by its value and nothing else changes; otherwise nothing is queued. |
| `Automation.ScheduleFunction` | richardview/_system/_automation_widget.py:103-108 | Appends one step with the pending delay, keeps the step and delay lists equal in length, resets pending to 0, sets time-to-go to the sum of delays, and sets the countdown only for the first step. |
| `Automation.ScheduleAction` | richardview/_system/_automation_widget.py:130-136 | An unknown nickname fails with UnknownWidget, and a field the widget lacks fails with UnknownField; both leave the queue unchanged. Otherwise it queues exactly one action bound to the resolved widget. |
| `Automation.ScheduledActionEffect` | richardview/_system/_automation_widget.py:151-155 | When the queued action runs, the field reads the new value, nothing raises, and confirm reaches `on_confirm` iff it was scheduled with confirm and the widget can confirm. |
| `Automation.RunStep` | richardview/_system/_automation_widget.py:166-177 | Running a step keeps the dashboard consistent; a function step leaves the modelled dashboard as it is. |
| `Automation.Perform` | richardview/_system/_automation_widget.py:254-261 | A script call that succeeds keeps the list invariant. |
| `Automation.Exec` | richardview/_system/_automation_widget.py:254-261 | Executing a script up to its first raise keeps the list invariant. |
| `Automation.Reset` | richardview/_system/_automation_widget.py:236-248 | The load reset empties the step, delay and pending state, pauses, and keeps `end_time`. |
| `Automation.Load` | richardview/_system/_automation_widget.py:236-268 | After a load the scheduler is paused at cursor 0. On success the readout is "0/N steps done.", time-to-go is the sum of the delays and the countdown is the first delay. A raising script keeps what was queued before the error, with the readout blank. |
| `Automation.ExecKeepsPaused` | richardview/_system/_automation_widget.py:254-261 | Executing a script only appends: the pause flag, cursor 0, the empty deadlines and the readout are kept. |
| `Automation.PerformConserves` | richardview/_system/_automation_widget.py:87-108 | Each primitive queues its one step (or none) and conserves the scheduled seconds: delays plus pending grow by exactly the parsed delay, and earlier delays are untouched. |
| `Automation.ExecConserves` | richardview/_system/_automation_widget.py:254-261 | A script run to its end queues one step per `schedule_function`/`schedule_action`. Every scheduled second lands in one step's delay or in pending. |
| `Automation.FailedLoadKeepsPrefix` | richardview/_system/_automation_widget.py:236-261 | A script that raises after some calls loads exactly the steps those calls queued. |
| `Automation.ExecPrefix` | richardview/_system/_automation_widget.py:254-261 | Running a prefix to completion and then the rest is the same as running the whole script. |
| `Automation.Plan` | richardview/_system/_automation_widget.py:213-221 | Start plans one deadline per step. |
| `Automation.PlanShape` | richardview/_system/_automation_widget.py:213-221 | Steps before the cursor are due at `t0` and the cursor step at `t0` plus the countdown; each later step is due its own delay after its predecessor. |
| `Automation.PlanMonotone` | richardview/_system/_automation_widget.py:213-221 | With non-negative delays and countdown, the planned deadlines never decrease. |
| `Automation.PlanLoop` | richardview/_system/_automation_widget.py:213-221 | The planning loop as written computes exactly the deadline plan. |
| `Automation.Reschedule` | richardview/_system/_automation_widget.py:193-198 | A tick that does not finish schedules the next one at 0 ms when the countdown is not positive and at 1000 ms otherwise, refreshing time-to-go only in the latter case. |
| `Automation.Tick` | richardview/_system/_automation_widget.py:164-200 | The tick behaves as follows: <ul><li>Paused, it is a no-op.</li><li>A cursor past the deadlines raises.</li><li>It fires the cursor step exactly when `now` is past that step's deadline.</li><li>After firing, the cursor advances by one and the countdown becomes the next step's raw delay.</li><li>If nothing is due, the countdown is the deadline minus `now`.</li><li>After the last step it resets (cursor 0, paused, first delay, sum of delays, "0/N steps done.") and schedules no further tick.</li><li>Steps, delays and deadlines are never changed.</li></ul> |
| `Automation.TickKeepsRunning` | richardview/_system/_automation_widget.py:164-200 | A tick on a started script never crashes and keeps its deadlines planned. |
| `Automation.ZeroDelayCascades` | richardview/_system/_automation_widget.py:191-198 | After a step fires, a next step with zero or negative delay is due at an immediate (0 ms) tick. |
| `Automation.RunOutFiresRest` | richardview/_system/_automation_widget.py:164-189 | Ticking after every remaining deadline fires each remaining step once, in order, and ends in the finished reset. |
| `Automation.Start` | richardview/_system/_automation_widget.py:205-225 | Start refuses when no script is loaded and when serial is off, with no state change. Otherwise it plans the deadlines from `now`, unpauses, changes nothing else, and ticks at once. |
| `Automation.ResumeShiftsSchedule` | richardview/_system/_automation_widget.py:213-224 | Pausing while waiting and starting again later shifts every remaining deadline by the paused time. |
| `Automation.Stop` | richardview/_system/_automation_widget.py:279-289 | Stop pauses and rewinds to cursor 0, resets time-to-go to the sum of delays, and sets the countdown to the first delay with the readout "0/N". With nothing loaded it raises after the rewind; lists and deadlines are kept. |
| `Automation.Pause` | richardview/_system/_automation_widget.py:273-277 | Pausing sets the pause flag and changes nothing else. |
| `Automation.PausedTickIdle` | richardview/_system/_automation_widget.py:164-277 | After a pause a tick fires nothing, changes nothing and schedules no further tick. |
| `Automation.StopThenStart` | richardview/_system/_automation_widget.py:205-225 | After a stop, a start replans from the first step, due one first delay after `now`. |
| `GenericWidget.NewWidget` | src/richardview/generic_widget.py:38-54 | A new widget has no fields, no defaults and no logged values. It is closed, has no confirm button, and its cycle counter is -1. |
| `GenericWidget.AddField` | src/richardview/generic_widget.py:172-216 | An unknown field type raises, and so does a dropdown without options. Otherwise: <ul><li>The name binds to a fresh or a given `StringVar` (a duplicate name is rebound), and other fields read as before.</li><li>The name is logged unless `log=False`.</li><li>A text output records its default.</li><li>Any other field type makes sure a confirm button exists.</li></ul> |
| `GenericWidget.Bound` | src/richardview/generic_widget.py:173-207 | Binding extends the variable store without altering existing slots, and sets the name's slot, log entry and default as the field kind dictates. |
| `GenericWidget.TracksAdded` | src/richardview/generic_widget.py:183 | Inserting into the default-values dict appends a new key and keeps an existing key's place. |
| `GenericWidget.Widget.SetField` | src/richardview/generic_widget.py:228-236 | After setting, the field reads the new value; fields sharing its `StringVar` change too, and all others are unchanged. An unknown name raises. |
| `GenericWidget.Widget.LogDataAfterSet` | src/richardview/generic_widget.py:98-108 | After `set_field(f, v)`, `log_data` has the same names; each name logged from the slot of `f` logs `v`, and every other logged name logs what it logged before. |
| `GenericWidget.Widget.ReadPhase` | src/richardview/generic_widget.py:378 | The read phase `int(n*4/5)` lies in `0..n-1`, and is at least 1 once n ≥ 5. |
| `GenericWidget.QuerySerial` | src/richardview/generic_widget.py:352-365 | The counter becomes (counter+1) mod n. The device is queried only when the counter wraps to 0 and a connection exists (or none is needed). With n = 0 the increment is stored and then `%` raises. |
| `GenericWidget.ReadSerial` | src/richardview/generic_widget.py:367-388 | A read happens exactly at the read phase and when connected (or no serial is needed); a raising device read yields False, and otherwise its verdict passes through. |
| `GenericWidget.OpenSerial` | src/richardview/generic_widget.py:283-323 | Opening empties the queue and is connected iff the port opened with an object. A raised opening reports a failure at once. The handshake query runs iff the opening did not raise and n ≠ 0. The read is scheduled at the read phase unless `%` raised. Fields are untouched. |
| `GenericWidget.OpenSerialRead` | src/richardview/generic_widget.py:325-350 | Without a connection nothing is reported; otherwise `on_serial_open` receives the read result, and a handshake other than True closes the connection. |
| `GenericWidget.FailedHandshakeSilences` | src/richardview/generic_widget.py:325-350 | A handshake that did not come back `True`, on a widget that needs a port, leaves it unconnected: the next `read_serial` reads nothing, `query_serial` sends no query, and a second handshake read returns early. |
| `GenericWidget.RestoreDefaults` | src/richardview/generic_widget.py:400-401 | Restoring writes only into existing slots (the store keeps its size). |
| `GenericWidget.CloseSerial` | src/richardview/generic_widget.py:390-405 | Closing drops an unshared connection and changes only the variable store. |
| `GenericWidget.RestoreKeepsOthers` | src/richardview/generic_widget.py:400-401 | A slot bound to no text output keeps its content through the restore. |
| `GenericWidget.RestoreSetsOwn` | src/richardview/generic_widget.py:400-401 | A slot bound to a single text output ends up holding that field's default. |
| `GenericWidget.CloseSerialRestores` | src/richardview/generic_widget.py:390-405 | After closing, each text output that shares its `StringVar` with no other text output reads its default, and fields bound to no text output keep their value. |
| `GenericWidget.Enqueue` | src/richardview/generic_widget.py:420-436 | Sending appends the message and its delay. Only the first message in an empty queue starts the timer, with its own delay. |
| `GenericWidget.UpdateQueue` | src/richardview/generic_widget.py:407-418 | A successful write sends the head and pops it; a failed write clears both lists; the next timer waits the new head's delay, and there is none when the queue is empty. |
| `GenericWidget.DrainIsFifo` | src/richardview/generic_widget.py:407-436 | Draining writes exactly the queued messages in enqueue order, each later one after its own delay. |
| `GenericWidget.QueryTimes` | src/richardview/generic_widget.py:355-356 | Repeated cycles change only the counter. |
| `GenericWidget.QueryTimesCounter` | src/richardview/generic_widget.py:355-356 | Within n cycles the counter is c+j, wrapped once past n. |
| `GenericWidget.CounterStep` | src/richardview/generic_widget.py:356 | One step on an in-range counter is +1, wrapping to 0 at n. |
| `GenericWidget.QueryPeriod` | src/richardview/generic_widget.py:355-356 | n cycles return the widget to the same state. |
| `GenericWidget.CycleGating` | src/richardview/generic_widget.py:352-388 | Once the open sets the counter to the read phase p, each block of n cycles has one query (on cycle n-1-p) and one read (on cycle n-1). |
| `GenericWidget.QueryTimesUnfold` | src/richardview/generic_widget.py:355-356 | j+1 cycles are j cycles followed by one query step. |
| `Dashboard.Dash.GetWidgetByNickname` | src/richardview/dashboard.py:151-161 | Resolves exactly the registered nicknames to a device widget; any other nickname raises. |
| `Dashboard.Dash.Named` | src/richardview/dashboard.py:161 | The widget a nickname reaches is a consistent widget. |
| `Dashboard.Dash.GetField` | src/richardview/dashboard.py:120-130 | Reads the field through the nickname map; an unknown nickname or field raises. |
| `Dashboard.NewDash` | src/richardview/dashboard.py:46-54 | A new dashboard has no widgets and serial off. |
| `Dashboard.AddWidget` | src/richardview/dashboard.py:70-92 | Adding a widget appends it to all widgets. A named widget also appends its name (duplicates too) and takes over its nickname; a minimal widget leaves the names and the map alone. |
| `Dashboard.LaterNicknameWins` | src/richardview/dashboard.py:83-92 | For two widgets added with one nickname, the nickname reaches the later one. The earlier stays listed, and both names are recorded. |
| `Dashboard.PutWidget` | src/richardview/dashboard.py:147-149 | Replacing one widget leaves every other widget and the registry untouched. |
| `Dashboard.SetFieldAt` | src/richardview/dashboard.py:147-149 | The field reads the new value and confirm reaches `on_confirm` iff asked and possible. Every other widget and the nickname map are unchanged. A missing field raises. |
| `Dashboard.SetField` | src/richardview/dashboard.py:132-149 | Through the nickname map, the field then reads the new value and confirm runs iff asked and possible; an unknown nickname or field raises. |
| `Dashboard.SetFieldLeavesOthers` | src/richardview/dashboard.py:132-149 | Setting one widget's field leaves every field of every other widget reading as before. |
| `Dashboard.ScaledFontSize` | src/richardview/dashboard.py:203-205 | A scaled font size is at least 1, and equals the truncated product when that is at least 1. |
| `Dashboard.ScaledThickness` | src/richardview/dashboard.py:209-211 | A scaled frame thickness is at least 5, and equals the truncated product when that is at least 5. |
| `Dashboard.ScaleByOne` | src/richardview/dashboard.py:203-211 | Scaling by 1 keeps legal sizes and raises too-small ones to the floor. |
| `SerialControl.MaxInterval` | src/richardview/_system/_serial_widget.py:69-73 | The result is at least 1 and at least every widget's `update_every_n_cycles`. It is attained by some widget unless it is 1. |
| `SerialControl.ToggleOff` | src/richardview/_system/_serial_widget.py:49-55 | Turning off closes every device widget, leaves minimal widgets and the registry alone, and marks serial off. |
| `SerialControl.ToggleOn` | src/richardview/_system/_serial_widget.py:56-66 | Turning on runs `open_serial` on every device widget with its port outcome and the polling wait. Minimal widgets and the registry are untouched, and serial is marked on. |
| `SerialControl.Toggle` | src/richardview/_system/_serial_widget.py:46-76 | The toggle flips `serial_connected`. Turning on schedules the first poll after polling wait × max interval, and turning off schedules none. |
| `SerialControl.QueryOne` | src/richardview/_system/_serial_widget.py:88-103 | A query that returns clears the failure flag. A raising query sets the flag, closes the widget, and prints only if the flag was already present and False. A minimal widget just gets the flag False. |
| `SerialControl.QueryPorts` | src/richardview/_system/_serial_widget.py:86-103 | Nothing happens unless connected; otherwise every widget goes through `QueryOne` and only the widget list changes. |
| `SerialControl.FailureReportedOnce` | src/richardview/_system/_serial_widget.py:92-103 | The second consecutive failure of a widget is silent. |
| `SerialControl.ReadPorts` | src/richardview/_system/_serial_widget.py:106-114 | Disconnected reads nothing; connected, each device widget's `read_serial` result is collected and minimal widgets read nothing. |
| `SerialControl.Poll` | src/richardview/_system/_serial_widget.py:78-84 | A poll queries, schedules the read half a wait later, and reschedules itself after a full wait and runs the interlocks iff connected. |
| `SerialControl.PollStopsWhenDisconnected` | src/richardview/_system/_serial_widget.py:80-89 | When disconnected, a poll changes nothing, does not reschedule and reads nothing, so the polling chain ends. |
| `SerialControl.ToggleOffEndsPolling` | src/richardview/_system/_serial_widget.py:46-89 | Toggling a connected dashboard off ends the polling chain: the next poll changes nothing, runs no interlocks, schedules no further poll, and nothing is read. |
| `SerialControl.Insert` | src/richardview/_system/_serial_widget.py:135 | Insertion keeps a list sorted and adds exactly the one element. |
| `SerialControl.SortInts` | src/richardview/_system/_serial_widget.py:135 | The result is sorted and a permutation of the input. |
| `SerialControl.ParseAll` | src/richardview/_system/_serial_widget.py:132-136 | Either every name parses and the result lists their numbers in order, or some name fails to parse. |
| `SerialControl.UpdatePorts` | src/richardview/_system/_serial_widget.py:127-143 | Refused while connected; with no ports it raises. If the first name has no `COM`, the list passes as given. Otherwise every name must read as an integer once `COM` is removed, and the list is rebuilt as `"COM"+n` in numeric order. |
| `SerialControl.ComNumberOfName` | src/richardview/_system/_serial_widget.py:133-138 | A rebuilt `COMn` name reads back as n. |
| `SerialControl.ComNumbersOfNames` | src/richardview/_system/_serial_widget.py:133-138 | Rebuilt names read back as their numbers. |
| `SerialControl.ComPortsSortNumerically` | src/richardview/_system/_serial_widget.py:131-138 | `COMn` names come back as the same set of names ordered by number, so `COM10` sorts after `COM9`. |
| `MksMfc.Configure` | src/richardview/majumdar_lab_widgets/mks_mfc_widget.py:52-74 | Errors come in order: without a sharer, a missing port raises first and then a missing id; a channel outside A1..C2 raises. A sharer's id is inherited unless one is given. The channel number is the channel's index + 1. |
| `MksMfc.ChannelText` | src/richardview/majumdar_lab_widgets/mks_mfc_widget.py:73-74 | Channel numbers 1..6 are the single digits and parse back. |
| `MksMfc.ChannelsDistinct` | src/richardview/majumdar_lab_widgets/mks_mfc_widget.py:73-74 | Distinct channels get distinct channel numbers. |
| `MksMfc.InitialFields` | src/richardview/majumdar_lab_widgets/mks_mfc_widget.py:77-89 | The entries start as the forced scale factor, "Closed" (a valid mode) and "0.0", and the readouts as after a close. |
| `MksMfc.OnSerialOpen` | src/richardview/majumdar_lab_widgets/mks_mfc_widget.py:100-107 | A handshake other than True shows "No Reading" in all four readouts. A True one copies the device setpoint and mode into the entries, and the scale factor too unless it is forced. |
| `MksMfc.OnSerialQuery` | src/richardview/majumdar_lab_widgets/mks_mfc_widget.py:113-121 | Resets the input iff the line is not borrowed. With an ASCII device id and channel it writes the four queries `@<id><code><ch>?;FF\r` for QSF, QMD, QSP and FR, in that order, each ASCII. Otherwise the first `encode('ascii')` raises after the reset and nothing is written. |
| `MksMfc.QueryCommandAscii` | src/richardview/majumdar_lab_widgets/mks_mfc_widget.py:118-120 | A query command is ASCII, so `encode('ascii')` accepts it, exactly when the device id and channel are ASCII. |
| `MksMfc.OnSerialClose` | src/richardview/majumdar_lab_widgets/mks_mfc_widget.py:191-194 | Closing shows "None" in all four readouts, which differs from the "No Reading" of a failed handshake. |
| `MksMfc.TakeToken` | src/richardview/majumdar_lab_widgets/mks_mfc_widget.py:133-141 | One pass yields either an ASCII reply that ends at the first `;`, is shorter than the budget, and leaves the rest unread, or consumes the budget (or the input) with no `;`. |
| `MksMfc.BadByteWhen` | src/richardview/majumdar_lab_widgets/mks_mfc_widget.py:136-147 | The decode fails exactly when a non-ASCII byte comes before any `;` within the budget. |
| `MksMfc.TokenReadsBack` | src/richardview/majumdar_lab_widgets/mks_mfc_widget.py:133-141 | A short ASCII reply followed by `;` reads back whole. |
| `MksMfc.ReadReplies` | src/richardview/majumdar_lab_widgets/mks_mfc_widget.py:130-147 | At most `count` replies are collected, each well formed. |
| `MksMfc.DelimitedReadsBack` | src/richardview/majumdar_lab_widgets/mks_mfc_widget.py:130-147 | Well-formed replies, each ended by `;`, read back as themselves with the rest untouched. |
| `MksMfc.SilentLineReadsNothing` | src/richardview/majumdar_lab_widgets/mks_mfc_widget.py:130-147 | A silent line yields no replies. |
| `MksMfc.ReadToken` | src/richardview/majumdar_lab_widgets/mks_mfc_widget.py:134-142 | The inner byte loop computes exactly one token pass. |
| `MksMfc.ReadRepliesBytewise` | src/richardview/majumdar_lab_widgets/mks_mfc_widget.py:130-147 | The nested byte loops compute exactly the four-pass read. |
| `MksMfc.AfterAck` | src/richardview/majumdar_lab_widgets/mks_mfc_widget.py:150-151 | Succeeds iff the reply, with `FF` removed, contains `ACK`; the result is shorter by at least the `ACK`. |
| `MksMfc.AckReplyRead` | src/richardview/majumdar_lab_widgets/mks_mfc_widget.py:150-151 | A reply `@<id>ACK<a>`, with or without a leading leftover `FF`, reads as `a`. |
| `MksMfc.ModeName` | src/richardview/majumdar_lab_widgets/mks_mfc_widget.py:156-164 | Text other than the three device words passes through unchanged. |
| `MksMfc.ModeWordsRoundTrip` | src/richardview/majumdar_lab_widgets/mks_mfc_widget.py:156-164 | Mode options and device words map one to one in both directions. |
| `MksMfc.NumberField` | src/richardview/majumdar_lab_widgets/mks_mfc_widget.py:152-173 | A number reply is shown iff `float()` accepts it, and then it goes through the formatter. |
| `MksMfc.ParseReplies` | src/richardview/majumdar_lab_widgets/mks_mfc_widget.py:148-183 | Parsing succeeds iff there are four replies, each has `ACK`, and the three numbers parse. The readouts are then: <ul><li>scale factor: the first answer, formatted;</li><li>mode: the second answer through the mode map;</li><li>setpoint: the third answer, formatted;</li><li>flow: the fourth answer without `>`, formatted.</li></ul> |
| `MksMfc.RepliesParsed` | src/richardview/majumdar_lab_widgets/mks_mfc_widget.py:148-183 | Four replies with numeric answers show those answers. |
| `MksMfc.StrReprAll` | src/richardview/majumdar_lab_widgets/mks_mfc_widget.py:187 | Each reply is quoted by `repr`, in order. |
| `MksMfc.OnSerialRead` | src/richardview/majumdar_lab_widgets/mks_mfc_widget.py:130-189 | A decode failure and a bad reply both show "Read Error" in all four readouts. The decode failure returns the fixed message. The bad reply returns a message quoting the replies read. The read returns True iff all replies parse, and then shows the parsed readouts. |
| `MksMfc.SilentLineIsBadReply` | src/richardview/majumdar_lab_widgets/mks_mfc_widget.py:184-189 | A silent line reads as a bad reply that quotes `[]`. |
| `MksMfc.OnConfirm` | src/richardview/majumdar_lab_widgets/mks_mfc_widget.py:200-236 | Nothing is queued iff the scale factor is not a float or its command is not ASCII. Otherwise the scale factor command comes first, followed by the mode and setpoint commands. |
| `MksMfc.ModeThenSetpoint` | src/richardview/majumdar_lab_widgets/mks_mfc_widget.py:212-236 | All commands are queued at 100 ms. The mode command (its device word) is queued iff the mode is valid. The setpoint command is queued iff, in addition, the setpoint is a float and encodes. |
| `MksMfc.ModeCommandAscii` | src/richardview/majumdar_lab_widgets/mks_mfc_widget.py:212-221 | Once the scale factor command encodes, the mode command encodes too. |
| `MksMfcEmulator.QueryKeys` | src/richardview/majumdar_lab_widgets/mks_mfc_widget.py:273-275 | With a three-character id, the four queries have the keys QSF, QMD, QSP and FR1. |
| `MksMfcEmulator.CommandAnsweredAsQuery` | src/richardview/majumdar_lab_widgets/mks_mfc_widget.py:273-284 | A confirm command gets the same reply as its query, because the emulator cannot tell them apart. |
| `MksMfcEmulator.QueriedBuffer` | src/richardview/majumdar_lab_widgets/mks_mfc_widget.py:113-284 | With an ASCII device id, after a query cycle the buffer holds the four replies in query order, after what was left only on a borrowed line. |
| `MksMfcEmulator.NonAsciiIdQueriesNothing` | src/richardview/majumdar_lab_widgets/mks_mfc_widget.py:113-121 | With a non-ASCII device id a query cycle buffers nothing: an owned line ends empty and a borrowed one keeps what was left. |
| `MksMfcEmulator.WritesAnswered` | src/richardview/majumdar_lab_widgets/mks_mfc_widget.py:273-284 | Known writes append their replies in order. |
| `MksMfcEmulator.SplitReplies` | src/richardview/majumdar_lab_widgets/mks_mfc_widget.py:130-289 | The replies split into one token each; every later token starts with the `FF` of the one before, and the last `FF` stays unread. |
| `MksMfcEmulator.CycleParsed` | src/richardview/majumdar_lab_widgets/mks_mfc_widget.py:148-283 | A query cycle's replies parse to scale factor 2.10, mode Setpoint, setpoint 1.3e+2 and the drawn flow. |
| `MksMfcEmulator.EmulatorRoundTrip` | src/richardview/majumdar_lab_widgets/mks_mfc_widget.py:113-289 | Offline, with an ASCII device id, a query cycle followed by a read returns True with those four readouts and leaves `FF` unread, whether the line is owned or borrowed. |
| `MksMfcEmulator.OfflineOpenCopiesReadouts` | src/richardview/majumdar_lab_widgets/mks_mfc_widget.py:93-289 | Offline, the handshake after a query cycle succeeds, and opening copies the device setpoint and mode, and its scale factor unless forced, into the entries. |
| `AalborgDpc.ModeName` | src/richardview/majumdar_lab_widgets/aalborg_dpc_widget.py:92-98 | C, A and O become mode options; any other text passes through. |
| `AalborgDpc.ModeLetterReadsBack` | src/richardview/majumdar_lab_widgets/aalborg_dpc_widget.py:92-148 | Each mode's command letter reads back as that mode. |
| `AalborgDpc.OnSerialRead` | src/richardview/majumdar_lab_widgets/aalborg_dpc_widget.py:81-119 | Either four lines all parse (gas, mode, setpoint, flow) and are shown, or all four readouts show "Read Error". |
| `AalborgDpc.OnSerialOpen` | src/richardview/majumdar_lab_widgets/aalborg_dpc_widget.py:57-60 | A falsy handshake shows "No Reading" in all four readouts; otherwise nothing changes. |
| `AalborgDpc.OnSerialQuery` | src/richardview/majumdar_lab_widgets/aalborg_dpc_widget.py:62-73 | Clears the input, then writes the gas, mode, setpoint and flow queries `G`, `V,M`, `SP` and `FM` (each ending CR), in that order. |
| `AalborgDpc.OnSerialClose` | src/richardview/majumdar_lab_widgets/aalborg_dpc_widget.py:121-124 | Closing shows "None" in all four readouts, which differs from the "No Reading" of a failed handshake. |
| `AalborgDpc.OnConfirm` | src/richardview/majumdar_lab_widgets/aalborg_dpc_widget.py:130-160 | An unknown gas writes nothing. A gas without a number raises. Otherwise `G,<n>` is written first. `V,M,<letter>` follows iff the mode is valid. `SP,<sci>` follows iff the mode is Setpoint and the setpoint is a float. |
| `AalborgDpc.GasReplyRead` | src/richardview/majumdar_lab_widgets/aalborg_dpc_widget.py:83-86 | A reply `G:<n>,<name>` shows the name when the name holds no lower-case `r`. |
| `AalborgDpc.GasReplyCut` | src/richardview/majumdar_lab_widgets/aalborg_dpc_widget.py:83-86 | With a lower-case `r` in the name, the gas is cut one character before that `r`. |
| `AalborgDpc.LowerCaseGasCut` | src/richardview/majumdar_lab_widgets/aalborg_dpc_widget.py:83-86 | A reply naming `Ar` shows an empty gas. |
| `AalborgDpc.ModeReplyRead` | src/richardview/majumdar_lab_widgets/aalborg_dpc_widget.py:88-98 | A reply `VM:<m>` shows `m` through the mode map. |
| `AalborgDpc.SetpointReplyRead` | src/richardview/majumdar_lab_widgets/aalborg_dpc_widget.py:100-106 | A reply `SP:<t>` with `t` a number shows `t`. |
| `AalborgDpc.FlowReplyRead` | src/richardview/majumdar_lab_widgets/aalborg_dpc_widget.py:108-114 | A reply `><t>` with `t` a number shows `t` formatted. |
| `AalborgDpc.ConfirmedModeReadsBack` | src/richardview/majumdar_lab_widgets/aalborg_dpc_widget.py:92-148 | A commanded mode, echoed by the device, reads as that mode. |
| `AalborgDpcEmulator.Write` | src/richardview/majumdar_lab_widgets/aalborg_dpc_widget.py:192-198 | A write that is not a query leaves the buffer alone; a query appends one reply. |
| `AalborgDpcEmulator.QueryIndex` | src/richardview/majumdar_lab_widgets/aalborg_dpc_widget.py:192-198 | Each query finds its own reply index. |
| `AalborgDpcEmulator.QueriesBuffered` | src/richardview/majumdar_lab_widgets/aalborg_dpc_widget.py:66-205 | After the queries, the buffer holds their replies in the order asked. |
| `AalborgDpcEmulator.NonQueriesNotBuffered` | src/richardview/majumdar_lab_widgets/aalborg_dpc_widget.py:192-198 | Non-query writes leave the buffer as it is. |
| `AalborgDpcEmulator.EmulatorRoundTrip` | src/richardview/majumdar_lab_widgets/aalborg_dpc_widget.py:66-205 | Offline, a query then a read shows AR, Setpoint, 100 and 100 plus the last draw. |
| `AalborgDpcEmulator.OfflineOpenKeepsReadouts` | src/richardview/majumdar_lab_widgets/aalborg_dpc_widget.py:50-205 | Offline, the read after a query returns True, so opening leaves the four readouts alone. |
| `AalborgDpcEmulator.ConfirmNotBuffered` | src/richardview/majumdar_lab_widgets/aalborg_dpc_widget.py:130-198 | Offline, confirm commands leave the buffer unchanged. |
| `AalborgDpcEmulator.CommandNotQuery` | src/richardview/majumdar_lab_widgets/aalborg_dpc_widget.py:136-160 | A command with a `G,`, `V,M,` or `SP,` prefix is never one of the queries. |
| `AalborgDpm.ConfigureGases` | src/user-created-widgets/aalborg_dpm_widget.py:41-54 | Options without numbers raise. Given options are used together with their numbers. Without options the defaults Ar/H2/CH4 → 1/13/15 apply. |
| `AalborgDpm.NewDpmWidget` | src/user-created-widgets/aalborg_dpm_widget.py:58-59 | The widget cycles every second poll: queries go out when the counter wraps to 0 and reads come at counter 1. |
| `AalborgDpm.QueryDrainsInOrder` | src/user-created-widgets/aalborg_dpm_widget.py:87-91 | On an idle queue the gas query starts the timer at 50 ms, and the queue drains gas then flow, the flow query 350 ms later. |
| `AalborgDpm.GasField` | src/user-created-widgets/aalborg_dpm_widget.py:102-105 | A parsed gas is ASCII. |
| `AalborgDpm.GasReplyRead` | src/user-created-widgets/aalborg_dpm_widget.py:102-105 | `G:<n>,<name>` CR shows the name, for any ASCII name without CR. |
| `AalborgDpm.FlowReplyRead` | src/user-created-widgets/aalborg_dpm_widget.py:107-116 | `><t>` CR, with `t` a number that `float()` of bytes accepts, shows `t` formatted. |
| `AalborgDpm.FlowReplyRejected` | src/user-created-widgets/aalborg_dpm_widget.py:107-122 | A flow text that `float()` of bytes rejects fails the read. |
| `AalborgDpm.PaddedFlowRejected` | src/user-created-widgets/aalborg_dpm_widget.py:107-122 | A flow text padded with a separator character (28), which `float()` of a `str` strips but `float()` of bytes does not, fails the read and both readouts show "Read Error". |
| `AalborgDpm.ReprAll` | src/user-created-widgets/aalborg_dpm_widget.py:119-122 | Each line is quoted by `repr(bytes)`, in order. |
| `AalborgDpm.OnSerialRead` | src/user-created-widgets/aalborg_dpm_widget.py:99-123 | The read returns True iff both lines parse, the flow through `float()` of bytes, and then shows gas and flow. Otherwise both readouts show "Read Error" and the message quotes all the lines. |
| `AalborgDpm.OnSerialOpen` | src/user-created-widgets/aalborg_dpm_widget.py:76-81 | A handshake other than True shows "No Reading". A True one adopts the device gas as the selection only if it is an option. |
| `AalborgDpm.OnSerialQuery` | src/user-created-widgets/aalborg_dpm_widget.py:83-91 | Clears the input, then queues the gas query `G` CR with a 50 ms delay and the flow query `FM` CR with 350 ms. |
| `AalborgDpm.OnSerialClose` | src/user-created-widgets/aalborg_dpm_widget.py:125-128 | Closing shows "None" in both readouts, which differs from the "No Reading" of a failed handshake. |
| `AalborgDpm.OpenAdoptsReadGas` | src/user-created-widgets/aalborg_dpm_widget.py:76-116 | After a good read, a good open selects the gas read if it is an option. |
| `AalborgDpm.OnConfirm` | src/user-created-widgets/aalborg_dpm_widget.py:135-143 | An unknown gas queues nothing; a gas without a number raises; otherwise `G,<number>` CR is queued at 100 ms. |
| `AalborgDpm.ConfirmCarriesNumber` | src/user-created-widgets/aalborg_dpm_widget.py:135-143 | The gas command parses back to the number listed for the gas. |
| `AalborgDpm.DefaultGasCommands` | src/user-created-widgets/aalborg_dpm_widget.py:135-143 | The defaults command Ar, H2 and CH4 as `G,1`, `G,13` and `G,15`. |
| `AalborgDpmEmulator.Write` | src/user-created-widgets/aalborg_dpm_widget.py:173-179 | A query appends its reply. Anything else appends `IDK` CR and raises. |
| `AalborgDpmEmulator.QueriedLines` | src/user-created-widgets/aalborg_dpm_widget.py:87-195 | A query cycle leaves the gas line, then the flow line. |
| `AalborgDpmEmulator.EmulatorRoundTrip` | src/user-created-widgets/aalborg_dpm_widget.py:87-195 | Offline, a query then a read shows AR and the drawn flow. |
| `AalborgDpmEmulator.EmulatorGasNotSelected` | src/user-created-widgets/aalborg_dpm_widget.py:76-195 | `AR` is not a default option, so an offline open keeps the selection. |
| `AalborgDpmEmulator.ConfirmRaisesOffline` | src/user-created-widgets/aalborg_dpm_widget.py:135-179 | Offline, a gas command leaves `IDK` CR in the buffer and raises. |
| `ValcoTwoWay.Marker` | src/richardview/majumdar_lab_widgets/valco_2_way_valve_widget.py:70 | The marker is the character after the first `"`; there is none when there is no quote or nothing follows it. |
| `ValcoTwoWay.OnSerialRead` | src/richardview/majumdar_lab_widgets/valco_2_way_valve_widget.py:68-79 | `A` shows the first label and any other marker the second. A missing marker, or too few labels, shows "Read Error" and returns False. |
| `ValcoTwoWay.OnConfirm` | src/richardview/majumdar_lab_widgets/valco_2_way_valve_widget.py:88-98 | A selection that is not a label writes nothing; the first label is sent as `GOA` and any other as `GOB`. |
| `ValcoTwoWay.OnSerialOpen` | src/richardview/majumdar_lab_widgets/valco_2_way_valve_widget.py:53-54 | A falsy handshake shows "No Reading". |
| `ValcoTwoWay.OnSerialQuery` | src/richardview/majumdar_lab_widgets/valco_2_way_valve_widget.py:56-60 | Clears the input, then writes one command: the valve id followed by `CP` CR. |
| `ValcoTwoWay.OnSerialClose` | src/richardview/majumdar_lab_widgets/valco_2_way_valve_widget.py:81-83 | Closing shows "No Reading", as a failed handshake does. |
| `ValcoTwoWay.ReplyRepr` | src/richardview/majumdar_lab_widgets/valco_2_way_valve_widget.py:68-121 | A position reply, seen through `str(bytes)`, carries its letter as the marker. |
| `ValcoTwoWay.ConfirmReadsBack` | src/richardview/majumdar_lab_widgets/valco_2_way_valve_widget.py:68-98 | With two distinct labels, commanding a label and reading the reported position shows that label. |
| `ValcoTwoWay.ThirdLabelReadsAsSecond` | src/richardview/majumdar_lab_widgets/valco_2_way_valve_widget.py:68-98 | A third label is commanded as `GOB` and reads back as the second. |
| `ValcoTwoWay.EmulatorReadAccepted` | src/richardview/majumdar_lab_widgets/valco_2_way_valve_widget.py:68-121 | With two labels, every offline read is accepted and shows the first label iff the draw is above 10. |
| `ValcoTwoWay.OfflineOpenKeepsReadout` | src/richardview/majumdar_lab_widgets/valco_2_way_valve_widget.py:47-121 | Offline, with two labels, the handshake succeeds, so opening leaves the readout alone. |
| `ValcoEightWay.ParseOneChar` | src/richardview/majumdar_lab_widgets/valco_8_way_valve_widget.py:68 | `int()` of one character is its digit value, or raises. |
| `ValcoEightWay.Position` | src/richardview/majumdar_lab_widgets/valco_8_way_valve_widget.py:67-68 | The position is the digit after the first `0`. There is none when there is no `0`, nothing follows it, or a non-digit follows it. |
| `ValcoEightWay.PositionIsInt` | src/richardview/majumdar_lab_widgets/valco_8_way_valve_widget.py:67-68 | The position equals `int()` of the character after the first `0`. |
| `ValcoEightWay.OnSerialRead` | src/richardview/majumdar_lab_widgets/valco_8_way_valve_widget.py:65-74 | Position n shows label n, and position 0 shows the last label through a negative index. An out-of-range or missing position shows "Read Error" with a message quoting the reply. |
| `ValcoEightWay.OnConfirm` | src/richardview/majumdar_lab_widgets/valco_8_way_valve_widget.py:83-90 | A selection that is not a label writes nothing. Otherwise it writes `GO<k>`, where k is the position of the label's first occurrence, counting from 1. |
| `ValcoEightWay.OnSerialOpen` | src/richardview/majumdar_lab_widgets/valco_8_way_valve_widget.py:49-50 | A handshake other than True shows "No Reading". |
| `ValcoEightWay.OnSerialQuery` | src/richardview/majumdar_lab_widgets/valco_8_way_valve_widget.py:52-57 | Clears the input, then writes one command: the valve id followed by `CP` CR. |
| `ValcoEightWay.OnSerialClose` | src/richardview/majumdar_lab_widgets/valco_8_way_valve_widget.py:76-78 | Closing shows "No Reading", as a failed handshake does. |
| `ValcoEightWay.PositionAfterFirstZero` | src/richardview/majumdar_lab_widgets/valco_8_way_valve_widget.py:67-68 | A digit right after the first `0` is the position. |
| `ValcoEightWay.ConfirmReadsBack` | src/richardview/majumdar_lab_widgets/valco_8_way_valve_widget.py:65-90 | Commanding one of the first nine labels and reading that position back shows the label. |
| `ValcoEightWay.ZeroReadsLast` | src/richardview/majumdar_lab_widgets/valco_8_way_valve_widget.py:67-69 | `00` before any other `0` reads as the last label. |
| `ValcoEightWay.TenthLabelNeverShown` | src/richardview/majumdar_lab_widgets/valco_8_way_valve_widget.py:65-90 | A tenth label (not among the first nine nor last) can be commanded but never shown. |
| `ValcoEightWay.EmulatorReadsFail` | src/richardview/majumdar_lab_widgets/valco_8_way_valve_widget.py:97-113 | The reused two-way emulator's replies hold no `0`, so every offline read fails. |
| `ValcoEightWay.OfflineOpenShowsNoReading` | src/richardview/majumdar_lab_widgets/valco_8_way_valve_widget.py:43-113 | Offline every handshake fails, so opening always shows "No Reading". |
| `OmegaUtc.OnSerialRead` | src/richardview/majumdar_lab_widgets/omega_usb_utc_widget.py:51-66 | The read returns True iff the reply text is 6 to 11 characters long and has a digit; the readout is then its digits. A failure shows "Read Error", and a bad length quotes the whole text. |
| `OmegaUtc.OnSerialOpen` | src/richardview/majumdar_lab_widgets/omega_usb_utc_widget.py:37-38 | A handshake other than True shows "No Reading". |
| `OmegaUtc.OnSerialQuery` | src/richardview/majumdar_lab_widgets/omega_usb_utc_widget.py:40-43 | Writes the temperature query `C` CR without clearing the input first. |
| `OmegaUtc.OnSerialClose` | src/richardview/majumdar_lab_widgets/omega_usb_utc_widget.py:68-70 | Closing shows "No Reading", as a failed handshake does. |
| `OmegaUtc.DeviceReplyRead` | src/richardview/majumdar_lab_widgets/omega_usb_utc_widget.py:51-66 | A device reply `>` + digits is accepted iff it has 1 to 3 digits, and then reads as those digits. |
| `OmegaUtc.FilterDigitsAppend` | src/richardview/majumdar_lab_widgets/omega_usb_utc_widget.py:57-59 | Filtering digits distributes over concatenation. |
| `OmegaUtc.SignDropped` | src/richardview/majumdar_lab_widgets/omega_usb_utc_widget.py:57-59 | A sign is dropped: `-5` reads as `5`. |
| `OmegaUtc.EmulatorReadAccepted` | src/richardview/majumdar_lab_widgets/omega_usb_utc_widget.py:51-92 | Every emulator reply is accepted and reads as 30 to 34. |
| `OmegaUtc.OfflineOpenKeepsReadout` | src/richardview/majumdar_lab_widgets/omega_usb_utc_widget.py:30-92 | Offline the handshake succeeds, so opening leaves the temperature alone. |
| `IotRelay.Stripped` | src/richardview/majumdar_lab_widgets/iot_relay_widget.py:67 | Stripping removes every LF and CR and keeps all other characters. |
| `IotRelay.OnSerialRead` | src/richardview/majumdar_lab_widgets/iot_relay_widget.py:65-76 | A non-ASCII line raises before any readout changes. A line that strips to On or Off shows it and returns True. Anything else shows "Read Error" and returns False. |
| `IotRelay.OnConfirm` | src/richardview/majumdar_lab_widgets/iot_relay_widget.py:85-89 | On and Off send `On` or `Off` + CR LF; any other selection writes nothing. |
| `IotRelay.ConfirmReadsBack` | src/richardview/majumdar_lab_widgets/iot_relay_widget.py:65-89 | A confirm command, read as a status line, shows the selected status. |
| `IotRelay.StripsLineEnd` | src/richardview/majumdar_lab_widgets/iot_relay_widget.py:67 | A status followed by CR LF strips back to the status. |
| `IotRelay.OnSerialOpen` | src/richardview/majumdar_lab_widgets/iot_relay_widget.py:50-51 | A falsy handshake shows "No Reading". |
| `IotRelay.OnSerialQuery` | src/richardview/majumdar_lab_widgets/iot_relay_widget.py:53-57 | Clears the input, then writes the status query `Q` LF. |
| `IotRelay.OnSerialClose` | src/richardview/majumdar_lab_widgets/iot_relay_widget.py:78-80 | Closing shows "No Reading", as a failed handshake does. |
| `IotRelay.EmulatorIgnoresQuery` | src/richardview/majumdar_lab_widgets/iot_relay_widget.py:56-108 | The emulator ignores every write the query makes. |
| `IotRelay.EmulatorReadAccepted` | src/richardview/majumdar_lab_widgets/iot_relay_widget.py:65-115 | Whatever the emulator draws, the read accepts the line and shows the drawn status. |
| `IotRelay.OfflineOpenKeepsReadout` | src/richardview/majumdar_lab_widgets/iot_relay_widget.py:43-115 | Offline, the handshake read of a connected widget succeeds, so opening leaves the status alone. |
| `IotRelay.NonAsciiHandshakeShowsNoReading` | src/richardview/majumdar_lab_widgets/iot_relay_widget.py:43-76 | A non-ASCII handshake line makes the read raise; `read_serial` turns that into False, so opening shows "No Reading". |
| `PicarroCrd.NewPicarroWidget` | src/richardview/majumdar_lab_widgets/picarro_crd_widget.py:31-32 | The widget cycles every third poll: the (empty) query comes when the counter wraps to 0 and reads come at counter 2. |
| `PicarroCrd.OnSerialRead` | src/richardview/majumdar_lab_widgets/picarro_crd_widget.py:65-86 | The read returns True iff the line has seven words and the 3rd to 5th are floats. It then shows CH4, CO2 and H2O from words 3, 5 and 4 and clears the failure count. Otherwise the count goes up by one, and "Read Error" is shown only once it passes 3. |
| `PicarroCrd.OnSerialOpen` | src/richardview/majumdar_lab_widgets/picarro_crd_widget.py:48-50 | A handshake other than True shows "No Reading". |
| `PicarroCrd.OnSerialQuery` | src/richardview/majumdar_lab_widgets/picarro_crd_widget.py:52-55 | Sends nothing and does not clear the input: the analyser reports on its own. |
| `PicarroCrd.OnSerialClose` | src/richardview/majumdar_lab_widgets/picarro_crd_widget.py:88-91 | Closing shows "No Reading" in the three readouts, as a failed handshake does. |
| `PicarroCrd.TrailingFailures` | src/richardview/majumdar_lab_widgets/picarro_crd_widget.py:78-82 | A run ends with at most as many failures as it has reads. |
| `PicarroCrd.FailsAfterCounts` | src/richardview/majumdar_lab_widgets/picarro_crd_widget.py:78-82 | The failure count is the number of failures since the last success, plus the starting count if there was none. |
| `PicarroCrd.ErrorShownAfterFourFailures` | src/richardview/majumdar_lab_widgets/picarro_crd_widget.py:78-86 | From a fresh widget, "Read Error" appears exactly when more than three reads in a row have failed. |
| `PicarroCrd.EmulatorRepr` | src/richardview/majumdar_lab_widgets/picarro_crd_widget.py:69-115 | An emulator line seen through `str(bytes)` splits into seven words, `b'` and `\r'` included. |
| `PicarroCrd.EmulatorReadAccepted` | src/richardview/majumdar_lab_widgets/picarro_crd_widget.py:65-115 | Offline, every read is accepted, shows the drawn values and clears the failure count. |
| `PicarroCrd.OfflineOpenKeepsReadouts` | src/richardview/majumdar_lab_widgets/picarro_crd_widget.py:42-115 | Offline the handshake succeeds, so opening leaves the readouts alone. |
| `DeviceCommon.FalsyIsNotTrue` | src/richardview/majumdar_lab_widgets/aalborg_dpc_widget.py:57-58 | A falsy handshake is not True, but an error message is not True while being truthy, so `not success` and `is not True` differ. |
| `PyMath.PyMod` | src/richardview/generic_widget.py:356 | Python's `%` raises for modulus 0, takes the modulus's sign, and is 0 exactly on multiples. |
| `PyMath.TruncDiv` | src/richardview/generic_widget.py:378 | `int(a/b)` truncates toward zero. |
| `PyText.ParseShowInt` | richardview/_system/_automation_widget.py:88 | `int(str(i))` is i for every integer. |
| `PyText.ParseAllDigits` | richardview/_system/_automation_widget.py:89 | `int()` of plain decimal digits, leading zeros included, is the number they denote. |
| `PyText.BytesRepr` | src/richardview/majumdar_lab_widgets/valco_2_way_valve_widget.py:68 | `str(bytes)` is the bytes quoted after `b`. |
| `PyText.WordsOfJoin` | src/richardview/majumdar_lab_widgets/picarro_crd_widget.py:69 | `split()` of non-empty words without whitespace, joined by spaces, gives back the words. |
| `PyText.SplitOnJoin` | richardview/_system/_automation_widget.py:88 | `split(sep)` of pieces without `sep`, joined by `sep`, gives back the pieces. |
| `PyText.FilterDigits` | src/richardview/majumdar_lab_widgets/omega_usb_utc_widget.py:57-59 | Keeping the digits of a text yields only digits, and exactly the digits it held. |
| `PyText.BytesFloatBare` | src/user-created-widgets/aalborg_dpm_widget.py:111 | On text with no whitespace at either end, `float()` of bytes and `float()` of a `str` accept the same inputs. |
| `PyText.BytesFloatKeepsSeparator` | src/user-created-widgets/aalborg_dpm_widget.py:111 | `float()` of a `str` accepts `\x1c5`, stripping the separator, while `float()` of bytes rejects it. |

## Left out

- Tkinter is not modelled. That covers frames, labels, buttons and their colours, `disable_field`, `enable_field`, `move_confirm_button`, `override_color`, fonts, focus and message boxes. A `StringVar` is a slot in a variable store.
- Printed console messages are not modelled, except where a widget returns the message as its read result.
- `root.after` scheduling is a returned delay. Callbacks that are still pending are not modelled: a pause does not cancel a pending tick, and a start can create a second tick chain. Every property is stated for one call.
- The wall clock (`time.time()`) is the integer parameter `now`, in seconds. Rounding of a float start time is not modelled.
- Time-to-go and countdown are shown through `str(timedelta(...))`; the model keeps integer seconds.
- Loading a script file is modelled as the sequence of primitive calls its execution makes (`Automation.Primitive`). The file dialog, file reading and `exec` are not modelled.
- `Automation.RunStep`: a function step runs user code. Dispatch on its argument count (`co_argcount`) and its effect on the dashboard are not modelled; the step is identified only by an id.
- `get_parent_dashboard` has no return statement, so scripts that use it receive `None`. Nothing is modelled beyond that.
- Float formatting and rounding (`"{:.1f}"`, `"{:.2f}"`, `"{:.2e}"`, `round`) are function parameters, and only `float()` acceptance is modelled. For the same reason the float scale factor of `scale_all_text` is an exact ratio.
- `PyText.IsPyFloat`: accepts ASCII digits only. Python's `float()` of a `str` also accepts other Unicode digits, which are not modelled because no reply parsed here carries them; underscores between digits are modelled. The same holds for `PyText.ParseInt` and `int()`. `PyText.IsBytesFloat`, the `float()` of bytes, takes ASCII digits only, as Python does.
- The calibration of the MKS and DPM widgets (`np.interp` over a calibration table) is floating point. It is not modelled; the uncalibrated flow readout is.
- The emulators' random draws (`randint`, `np.random`) are parameters, and the properties hold for every draw. The MKS emulator's `str(8.0 + 0.1*k)` is taken as `8.k`.
- `GenericWidget.OpenSerialRead`: a widget on a shared line holds its partner's serial object, so a failed handshake's `serial_object.close()` also closes the partner's port. The widget record models only this widget losing its connection; the partner's port is not modelled as closed.
- On a shared serial line, `send_via_queue` also enqueues the message in the widget's own queue after forwarding it. `GenericWidget.Enqueue` models only the own-queue append, and no single-delivery property is claimed.
- In `_update_serial_ports`, the branch for names without `COM` sorts `ListPortInfo` objects. Their order is not modelled, so the list is passed on as given.
- The Omega widget raises `UnboundLocalError` when `readline` fails before `status` is set; that path is not modelled. The Picarro widget's similar path with an unbound `resp` is not modelled either.
- The DPC parser calls `bytes.index` with a `str`, which raises `TypeError` on a real port. The model parses the `str(bytes)` form of each reply, which is what the emulator path produces.
- The MKS `on_confirm` with a non-string `device_id` is not modelled: the id is text.
- `interlock` functions run on each poll; their effects are user code and not modelled (`SerialControl.Poll` reports that they ran).
- The serial library calls in `_open_serial_query` and `_open_serial_read` are an outcome parameter (`GenericWidget.PortOpening`), and the device's handshake read is a `DeviceRead`.
- `src/richardview/minimal_widget.py` appears only as the `Minimal` dashboard entry, which has no fields and no counter.
- The following files are not part of this model:
  - `sri_gc_fid_widget.py` and `mks_ftir_widget.py` do file I/O and float calibration.
  - `cellkraft_humidifier_widget.py` uses Modbus and a float vapour-pressure formula.
  - `thorlabs_opm_widget.py` is a DLL driver.
  - `async_demo_widget.py` uses asyncio.
  - `spiciness_widget.py` draws random numbers only.
  - `gmail_helper.py` sends mail.
  - `serial_port_scanner.py` is a polling loop over the serial library.
  - `generic_serial_emulator.py` holds only empty stubs.
  - `title_widget.py` has no logic.
  - `demo_dashboard.py` is configuration.
  - `_show_hide_widget.py` is UI toggles.
- `richardview/majumdar_lab_widgets/iot_relay_widget.py` is a byte-identical copy of the relay widget under `src/`, and `IotRelay` models both.
