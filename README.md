# Lawn irrigation controller — a Dafny model

This is a model of the decision core of an ESP8266 lawn-irrigation controller, with proofs about it. The controller drives three sprinkler stations. It is configured and commanded over MQTT. It keeps its state in EEPROM across deep-sleep cycles. It works in one of two modes:

- **Background mode:** each boot processes the pending scheduled event, computes the next one and goes back into deep sleep.
- **Interface mode:** the board stays awake and takes ad-hoc `set` commands.

The model covers:

- **`StationController`:** the controller's state-changing core.
  - The enabled and interface-mode flags.
  - The array of three station records and the pending `StationEvent`.
  - The overdue/forced stop sweep and the next-event computation.
  - Processing of the pending event.
  - The four topic handlers and the message routing.
  - `save`/`load` against an abstract EEPROM.
- **Its records and constants.**
- **The firmware's `setup`/`loop`,** including the deep-sleep length.

### Modules

- `Stations` (`stations.dfy`): the `Station` and `StationEvent` records, the constants and the default registry. `Station::start` and `Station::stop` become functions on the record.
- `CStrings` (`cstrings.dfy`): the C string operations the handlers rely on.
  - A C string is the prefix before the first NUL.
  - `strstr`/`index_of`, `starts_with` and `atoi`.
  - The two `substr` overloads, as methods that fill `array<char>` buffers.
- `Schedule` (`schedule.dfy`): the stop sweep, the next-event choice and the outcome of `process_station_event`, all stated on the registry's contents. The cron library's `cron_next` is a function-typed parameter (`CronNext`).
- `Topics` (`topics.dfy`): station-id extraction from a topic, and the callback's dispatch.
- `Commands` (`commands.dfy`): what a `set` or `config` payload does to the registry.
- `Persistence` (`persistence.dfy`):
  - the snapshot `save` writes (marker 112, the pending event, the station records), as an abstract record;
  - the `Eeprom` object that holds it.
- `Controller` (`controller.dfy`): the class `StationController`.
  - Its methods update the fields and the `array<Station>` in place.
  - Each method is proved against the functions of the modules above.
  - `HandleAll` folds the handlers over a sequence of incoming messages.
- `Firmware` (`firmware.dfy`): `setup`, `loop` and `enter_deep_sleep`.

### Modelling choices

- **Time.** Each pass reads the clock once. The value is passed in as `now` (seconds).
- **Messages.** The retained messages delivered during `init`, and the messages a `loop` pass receives, are sequences of `Message` values.
- **Buffers.** Fixed buffer sizes become preconditions on payloads, in `SetFits`, `ConfigFits` and `MessageFits`:
  - the 20-character duration buffer of `set`;
  - the 10-character duration buffer of `config`;
  - the 40-character `cron` field.
- **Mutual exclusion.** The invariant `WellFormed` is kept by every method:
  - the registry shape holds;
  - at most one station runs at a time;
  - the pending event is the default one or names a station.
- **Deep sleep.** Entering deep sleep is modelled by returning the sleep length in seconds.

### Behaviour worth knowing

- A run is overdue only when `now - started > duration`, a strict test.
- A scheduled START is honoured from 120 s before its time to 30 s after it.
- The enabled flag is checked before that window.
- The pending event carries no duration. A scheduled start of an idle station keeps its configured duration. A station that is still running when its START is processed is first force-stopped, which clears its duration, so it restarts with duration 0 and is stopped by the next overdue sweep. A bare "on" sent to a running station behaves the same way.
- `loop` never sweeps in interface mode. A station started there with `on|D` keeps running after D seconds. It stops when interface mode is switched off, because the next `loop` force-stops every station, or when a later boot in background mode sweeps it.
- `stop` clears the duration as well as the start time.
- A `config` payload without `|` is accepted. It gives an empty schedule and `atoi` of the whole payload.
- `MAX_DURATION` is the literal 1800000, compared with durations in seconds, although its comment in stations.h:11 says 30 minutes. `config` does not apply the cap; only `start` does.
- The enabled flag and the interface mode are not part of the EEPROM snapshot.
- `next_station_event` reads a running choice with time 0 as "no choice yet". `NextEventIsEarliest` therefore assumes no candidate at time 0. `CandidateAtZeroIsOvertaken` shows what happens otherwise.
- The interface-mode payload is checked with a 2-character prefix comparison. The enabled payload must equal "on".

## Model

| member | source | states |
|---|---|---|
| Stations.Start | esp8266/src/stations.cpp:24-32 | the station runs from `t`; a positive duration replaces the old one, capped at MAX_DURATION; otherwise the duration is kept; id, pin and schedule are kept |
| Stations.Stop | esp8266/src/stations.cpp:38-44 | the station is idle with start time and duration cleared; id, pin and schedule are kept |
| Stations.StopIdempotent | esp8266/src/stations.cpp:38-44 | stopping twice is stopping once; stopping a started station gives the same record as stopping it unstarted |
| Stations.ReplaceKeepsExclusion | esp8266/src/stations.cpp:282-288 | replacing a record by one with the same id, pin and run state keeps the registry shape, which stations run and mutual exclusion |
| Stations.InitialRegistry | esp8266/src/stations.h:76-78 | three stations, index i holding id i+1 on pins D5, D6, D7, all idle with zero times and empty schedule |
| CStrings.CStr | esp8266/src/stations.cpp:75-77 | the C string of a buffer is its NUL-free prefix, ending at the first NUL or at the end |
| CStrings.IndexOf | esp8266/src/stations.cpp:458-461 | -1 exactly when the pattern does not occur; otherwise the first position where it occurs |
| CStrings.IndexOfSeparator | esp8266/src/stations.cpp:458-461 | in `a + "\|" + b` with no '\|' in `a`, the first '\|' is at `\|a\|` |
| CStrings.StartsWith | esp8266/src/stations.cpp:463-465 | true exactly when the prefix is an initial segment of the string |
| CStrings.Atoi | esp8266/src/stations.cpp:244 | C's `atoi`: leading white space, an optional sign, then the longest digit run, and 0 without digits; a negative result needs a '-' after the white space, and an all-digit text reads as its decimal value; `AtoiOfDecimal` and `AtoiOfNonNumeric` characterise it further |
| CStrings.AtoiOfDecimal | esp8266/src/stations.cpp:244 | `atoi` of a decimal spelling of n followed by a non-digit gives back n |
| CStrings.AtoiOfNonNumeric | esp8266/src/stations.cpp:288 | `atoi` of text starting with a letter is 0 |
| CStrings.IndexOfAt | esp8266/src/stations.cpp:458-461 | an occurrence of the pattern with no earlier occurrence of its first character is the one `index_of` returns |
| CStrings.IndexOfPositive | esp8266/src/stations.cpp:458-461 | a pattern that occurs but not at position 0 gives a positive `index_of` |
| CStrings.NoOccurrence | esp8266/src/stations.cpp:458-461 | `index_of` is -1 when every candidate start mismatches the pattern at a fixed offset |
| CStrings.DecimalRoundTrip | esp8266/src/stations.cpp:286-288 | reading the decimal spelling of n gives n |
| CStrings.Substr | esp8266/src/stations.cpp:467-475 | exactly `l` characters from position `p` are copied, followed by a NUL; the rest of the buffer is untouched |
| CStrings.SubstrFrom | esp8266/src/stations.cpp:477-489 | the C string from `p` is copied with its terminator and one extra NUL; the buffer then holds that C string |
| Schedule.StopOverdue | esp8266/src/stations.cpp:141-152 | a station runs afterwards exactly when it ran, the sweep is not forced and its run is not overdue (strict test); stopped stations are `stop`ped, the rest unchanged; registry shape and mutual exclusion preserved |
| Schedule.ForcedSweepStopsAll | esp8266/src/stations.cpp:141-152 | after a forced sweep nothing runs, and any later sweep changes nothing |
| Schedule.SweepIdempotent | esp8266/src/stations.cpp:141-152 | a non-forced sweep repeated at the same instant changes nothing |
| Schedule.CandidateOf | esp8266/src/stations.cpp:158-175 | a running station offers STOP at start plus duration; an idle one with a schedule offers START at `cron_next`; others offer nothing |
| Schedule.NextEventUpTo | esp8266/src/stations.cpp:154-176 | the running choice is the default event or names one of the stations seen so far, with START or STOP |
| Schedule.NextEvent | esp8266/src/stations.cpp:154-178 | over a registry the computed event is well formed |
| Schedule.NextEventUpToIsEarliest | esp8266/src/stations.cpp:157-176 | the running minimum holds the earliest candidate, the lowest index among equal times, or the default event when no station offers one |
| Schedule.NextEventIsEarliest | esp8266/src/stations.cpp:154-178 | the default event exactly when no station offers one; otherwise the named station's candidate, no later than any other, and strictly earlier than those of lower id |
| Schedule.NoStopWhenIdle | esp8266/src/stations.cpp:159-165 | with no station running the choice is never a STOP |
| Schedule.NextEventAfterForcedSweep | esp8266/src/main.cpp:173-174 | after a forced sweep the next event is a START or none |
| Schedule.CandidateAtZeroIsOvertaken | esp8266/src/stations.cpp:161-169 | a candidate at time 0 is replaced by any later one, because time 0 means "nothing chosen yet" |
| Schedule.StartExclusive | esp8266/src/stations.cpp:212-215 | force-stop all then start station k: k is the only running station, started now, with the capped duration when positive, otherwise its own or 0 if it was running; the others are as the forced sweep leaves them |
| Schedule.ProcessOutcome | esp8266/src/stations.cpp:190-225 | no change in interface mode or without an event; otherwise the non-forced sweep; for an enabled START within 120 s before to 30 s after its time, only that station runs, from now, with its configured duration (0 if it was running); every other station is stopped if it ran and otherwise unchanged, so schedules and configured durations of idle stations are kept |
| Schedule.StaleStartIsSkipped | esp8266/src/stations.cpp:196-211 | a START outside the window, or while disabled, starts no station |
| Persistence.Encode | esp8266/src/stations.cpp:319-336 | the saved image carries the marker 112 |
| Persistence.Decode | esp8266/src/stations.cpp:299-317 | the image yields an event and records exactly when its first byte is 112 |
| Persistence.DecodeEncode | esp8266/src/stations.cpp:299-336 | loading what was saved gives back the event and every station |
| Topics.GetStationId | esp8266/src/stations.cpp:448-456 | a byte value; 0 when the topic has no "/station" |
| Topics.StationIndexFromTopic | esp8266/src/stations.cpp:132-139 | an index in 0..2 or none |
| Topics.StationIndexIsDigit | esp8266/src/stations.cpp:132-139 | a station is addressed exactly when the character after the first "/station" is 1, 2 or 3, and the index is that digit minus one |
| Topics.RouteOf | esp8266/src/stations.cpp:79-94 | mode-set exactly for the mode topic prefix, enabled-set exactly for the enabled prefix without the mode prefix; a station topic with no addressed station is ignored; otherwise, in interface mode, "set" after position 0 gives set, then "state" gives state; outside those, config when "config" occurs after position 0 and ignored otherwise; set/state only in interface mode; every other topic is ignored |
| Topics.StationTopicIsStationTopic | esp8266/src/stations.cpp:79-83 | "lawn-irrigation/station<id>…" fails the mode and enabled prefixes and passes the station prefix |
| Topics.StationTopicAddresses | esp8266/src/stations.cpp:132-139 | "lawn-irrigation/station<id>…" addresses station `id` |
| Topics.ConfigTopicKeywords | esp8266/src/stations.cpp:86-90 | the config topic holds neither "set" nor "state", and "config" after its start |
| Topics.SetTopicKeywords | esp8266/src/stations.cpp:86-90 | the set topic holds "set" after its start and no "config" |
| Topics.ConfigTopicRoutes | esp8266/src/stations.cpp:83-92 | "lawn-irrigation/station<id>/config" reaches the config handler of station `id` in either mode |
| Topics.SetTopicRoutes | esp8266/src/stations.cpp:83-92 | "lawn-irrigation/station<id>/set" reaches the set handler of station `id` in interface mode and is ignored in background mode |
| Topics.ConfigRoutedInEitherMode | esp8266/src/stations.cpp:86-92 | a config message is dispatched the same way in background mode as in interface mode |
| Commands.StationSetOutcome | esp8266/src/stations.cpp:235-255 | "on…": only the target runs, from now, with the capped duration after '\|' when positive, otherwise kept (0 if it was running), others force-swept; "off…": only the target is stopped; anything else: no change |
| Commands.BareOnKeepsDuration | esp8266/src/stations.cpp:239-243 | "on" without '\|' starts the station with its configured duration |
| Commands.AdHocStartScenario | esp8266/src/stations.cpp:239-243 | "on\|120" for station 3 while station 1 runs: station 1 stops with zero duration, station 3 runs from now for 120 s |
| Commands.ConfigOutcome | esp8266/src/stations.cpp:282-288 | the schedule becomes the text before the first '\|' and the duration `atoi` of the text after it; run state, id and pin are kept |
| Commands.StationConfigOutcome | esp8266/src/stations.cpp:278-293 | only the target record changes; which stations run is unchanged, so mutual exclusion is preserved |
| Commands.ConfigCronFitsBuffer | esp8266/src/stations.cpp:282-284 | a payload that fits the buffers stores a schedule of at most 39 characters |
| Commands.ConfigRoundTrip | esp8266/src/stations.cpp:282-288 | the payload "cron\|n" is read back as schedule `cron` and duration n |
| Commands.ConfigWithoutSeparator | esp8266/src/stations.cpp:282-288 | without '\|' the schedule is empty and the whole payload is the duration text |
| Controller.Restore | esp8266/src/stations.cpp:299-317 | with the marker, the event and stations come from the image; without it nothing changes; flags are never restored |
| Controller.HandleOutcome | esp8266/src/stations.cpp:79-93 | every handler keeps the registry shape, mutual exclusion and the pending event; only mode-set changes the mode and only enabled-set the enabled flag; a handler that does not save leaves the stations unchanged |
| Controller.HandleMessageOutcome | esp8266/src/stations.cpp:69-95 | handling a message keeps the registry shape and mutual exclusion |
| Controller.HandleAll | esp8266/src/stations.cpp:101-106 | handling any message sequence keeps the registry shape, mutual exclusion and the pending event |
| Controller.SavedImage | esp8266/src/stations.cpp:235-293 | the EEPROM after a message sequence is either the image it started with or the saved image of the final state; when it started as the saved image of the current state, it ends as the saved image of the final state |
| Controller.BackgroundMessagesStartNothing | esp8266/src/stations.cpp:83-92 | in background mode no message makes an idle station run |
| Controller.ReadDuration | esp8266/src/stations.cpp:241-242 | copying the text after the first '\|' into the buffer and applying `atoi` gives `atoi` of that text |
| Controller.ReadCron | esp8266/src/stations.cpp:282-284 | copying the text before the first '\|' into the 40-character buffer gives exactly that text (empty without '\|') |
| Controller.NulTerminated | esp8266/src/stations.cpp:75-77 | the buffer holds the payload and a NUL, so its C string is the payload's |
| Controller.StationController.constructor | esp8266/src/stations.h:74-79 | enabled, not in interface mode, default event, initial registry |
| Controller.StationController.Save | esp8266/src/stations.cpp:319-336 | the EEPROM holds the marker, the pending event and every station record |
| Controller.StationController.Load | esp8266/src/stations.cpp:299-317 | the controller state becomes `Restore` of the old state and the EEPROM image |
| Controller.StationController.CheckStopStations | esp8266/src/stations.cpp:141-152 | the array becomes `StopOverdue` of its old contents |
| Controller.StationController.NextStationEvent | esp8266/src/stations.cpp:154-188 | returns and stores `NextEvent` of the stations, which are unchanged, and saves |
| Controller.StationController.ProcessStationEvent | esp8266/src/stations.cpp:190-225 | the array becomes `ProcessOutcome`; saves exactly when a station is started |
| Controller.StationController.ProcessTopicEnabledSet | esp8266/src/stations.cpp:227-233 | enabled exactly when the payload is "on"; no save |
| Controller.StationController.ProcessTopicModeSet | esp8266/src/stations.cpp:265-276 | interface mode exactly when the payload starts with "on"; saves |
| Controller.StationController.SetInterfaceMode | esp8266/src/stations.cpp:123-129 | sets the mode and saves |
| Controller.StationController.ProcessTopicStationSet | esp8266/src/stations.cpp:235-255 | the array becomes `StationSetOutcome` of the payload's C string; saves |
| Controller.StationController.ProcessTopicStationConfig | esp8266/src/stations.cpp:278-293 | the array becomes `StationConfigOutcome` of the payload's C string; saves |
| Controller.StationController.Dispatch | esp8266/src/stations.cpp:79-93 | the state becomes `HandleOutcome` of the route and the payload; the EEPROM is written exactly by the mode, set and config handlers |
| Controller.StationController.HandleMessage | esp8266/src/stations.cpp:69-95 | the state becomes `HandleMessageOutcome`; the EEPROM is written exactly by the handlers that save |
| Controller.StationController.HandleMessages | esp8266/src/stations.cpp:101-106 | the state becomes `HandleAll` of the messages in order, and the EEPROM becomes `SavedImage` of them: each set, mode or config message saves the state it leaves |
| Controller.StationController.Init | esp8266/src/stations.cpp:54-116 | load first, then the retained messages; the EEPROM becomes `SavedImage` of the retained messages over the restored state |
| Firmware.SleepDuration | esp8266/src/main.cpp:60-73 | the longest sleep of at most 10800 s that does not pass an upcoming event; exactly 10800 s with no upcoming event |
| Firmware.SleepReachesNearEvent | esp8266/src/main.cpp:66-73 | an event at most 10800 s ahead is slept to exactly; a farther one is not reached |
| Firmware.EnterDeepSleep | esp8266/src/main.cpp:60-95 | recomputes, stores and saves the next event, then sleeps `SleepDuration` |
| Firmware.WakeRestoresSleepState | esp8266/src/stations.cpp:299-336 | the `load` of the next boot gets back the event and stations the board saved before sleeping; the flags are not restored |
| Firmware.Setup | esp8266/src/main.cpp:122-133 | after init, in background mode the pending event is processed before the next event is computed and the board sleeps; the EEPROM then holds that event and those stations, the enabled flag is the one init left and the mode is background; in interface mode it stays awake in the state init left, with the EEPROM as the retained messages' handlers saved it |
| Firmware.Loop | esp8266/src/main.cpp:169-181 | with interface mode switched off, every station is force-stopped, the next event (never a STOP) is computed, saved with the stations, and the board sleeps with its flags unchanged; otherwise the incoming messages are handled and the EEPROM becomes `SavedImage` of them |

## Left out

- MQTT, WiFi, OTA and NTP (mqttcli.cpp, main.cpp:97-120 and 135-166): network I/O. The clock is the parameter `now`; messages are parameters.
- The retry loop around the NTP update and the delay loop around `mqttcli::loop` in `init`: timing only. The retained messages are a parameter.
- `report_status`, `report_interface_mode_state`, the log publications, `print_state`, `to_string` and the debug macros: output only. `process_topic_station_state` only reports, so its route changes nothing.
- GPIO and shift-register sequencing (`set_stations_status`, `enable_ics`, `disable_ics`, `set_shift_register`) and the start/stop bit masks: hardware.
- The cron library: `cron_next` is an uninterpreted function parameter. A schedule that fails to parse is not distinguished.
- The EEPROM byte layout and `EEPROM.begin`/`commit`: the snapshot is an abstract record. `Eeprom.Valid` assumes that an image starting with 112 holds a well-formed state, as only `save` writes that marker.
- Integer widths: `time_t`, `long`, the `int8_t` event id and `int` overflow in `atoi` are unbounded integers. `Topics.GetStationId` does model the `uint8_t` wrap-around.
- Characters are Dafny `char` values. Bytes above 255 in a topic are excluded only where `IsCString` is required.
- Topics are compared as whole character sequences, not through their C string. A topic with an embedded NUL would be routed differently from `strstr`/`strncmp`; MQTT topic names cannot contain NUL.
- `Firmware.EnterDeepSleep`: the conversion of the sleep length to microseconds and the call into the deep-sleep hardware are not modelled. The method returns the length in seconds.
- `Firmware.Setup`: the real board never returns from deep sleep. The model returns the sleep length instead, and a later boot is a new `Setup`.
- Controller.StationController.HandleMessages: requires every message to fit its handler's buffers in either mode. Longer payloads overflow fixed buffers in the code, and the model does not describe that.
