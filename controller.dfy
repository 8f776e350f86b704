/**
 * `StationController` (esp8266/src/stations.h, esp8266/src/stations.cpp): the station
 * array, the enabled and interface-mode flags and the pending event, with the methods
 * that update them in place. Time is passed in as `now`; the EEPROM is an `Eeprom`
 * object the controller writes through `Save`.
 */
module Controller {
  import opened Wrappers
  import opened CStrings
  import opened Stations
  import opened Schedule
  import opened Topics
  import opened Commands
  import opened Persistence

  /** An incoming message: its topic (a C string) and its payload bytes. */
  datatype Message = Message(topic: seq<char>, payload: seq<char>)

  /** The controller's state as a value. */
  datatype State = State(enabled: bool, interfaceMode: bool, stations: seq<Station>, event: StationEvent)

  /** The state after `load`: the saved event and stations when the marker matches. */
  function Restore(st: State, img: Image): (r: State)
    ensures r.enabled == st.enabled && r.interfaceMode == st.interfaceMode
    ensures img.marker == MARKER ==> r.event == img.event && r.stations == img.stations
    ensures img.marker != MARKER ==> r == st
  {
    match Decode(img)
    case Some((ev, sts)) => st.(event := ev, stations := sts)
    case None => st
  }

  /** The buffers of the handler a route leads to are large enough for the payload. */
  predicate PayloadFits(route: Route, text: seq<char>) {
    match route
    case StationSet(_) => StartsWith("on", text) ==> SetFits(text)
    case StationConfig(_) => ConfigFits(text)
    case _ => true
  }

  /** The message fits whichever mode it arrives in. */
  predicate MessageFits(m: Message) {
    PayloadFits(RouteOf(m.topic, true), CStr(m.payload))
    && PayloadFits(RouteOf(m.topic, false), CStr(m.payload))
  }

  /** Whether the handler a route leads to ends with `save`. */
  predicate Saves(route: Route) {
    route.ModeSet? || route.StationSet? || route.StationConfig?
  }

  /** The state after the handler for `route` runs on payload text `text` at `now`. */
  function HandleOutcome(st: State, route: Route, text: seq<char>, now: int): (r: State)
    requires IsRegistry(st.stations)
    requires route.StationSet? || route.StationState? || route.StationConfig? ==>
      0 <= route.index < NUM_STATIONS
    ensures IsRegistry(r.stations) && r.event == st.event
    ensures AtMostOneActive(st.stations) ==> AtMostOneActive(r.stations)
    ensures !route.ModeSet? ==> r.interfaceMode == st.interfaceMode
    ensures !route.EnabledSet? ==> r.enabled == st.enabled
    ensures !Saves(route) ==> r.stations == st.stations
  {
    match route
    case ModeSet => st.(interfaceMode := StartsWith("on", text))
    case EnabledSet => st.(enabled := text == "on")
    case StationSet(k) => st.(stations := StationSetOutcome(st.stations, k, text, now))
    case StationState(_) => st
    case StationConfig(k) => st.(stations := StationConfigOutcome(st.stations, k, text))
    case Ignored => st
  }

  /** The state after the callback handles `m`. */
  function HandleMessageOutcome(st: State, m: Message, now: int): (r: State)
    requires IsRegistry(st.stations)
    ensures IsRegistry(r.stations)
    ensures AtMostOneActive(st.stations) ==> AtMostOneActive(r.stations)
  {
    HandleOutcome(st, RouteOf(m.topic, st.interfaceMode), CStr(m.payload), now)
  }

  /** The state after the callback handles `msgs` in order. */
  function HandleAll(st: State, msgs: seq<Message>, now: int): (r: State)
    requires IsRegistry(st.stations)
    ensures IsRegistry(r.stations) && r.event == st.event
    ensures AtMostOneActive(st.stations) ==> AtMostOneActive(r.stations)
    decreases |msgs|
  {
    if msgs == [] then st else HandleAll(HandleMessageOutcome(st, msgs[0], now), msgs[1..], now)
  }

  /**
   * The EEPROM image after the callback handles `msgs` in order, starting from `img`:
   * each message whose handler ends with `save` writes the state it leaves.
   */
  function SavedImage(st: State, msgs: seq<Message>, now: int, img: Image): (r: Image)
    requires IsRegistry(st.stations)
    ensures r == img || r == Encode(HandleAll(st, msgs, now).event, HandleAll(st, msgs, now).stations)
    ensures img == Encode(st.event, st.stations) ==>
      r == Encode(HandleAll(st, msgs, now).event, HandleAll(st, msgs, now).stations)
    decreases |msgs|
  {
    if msgs == [] then img
    else
      var next := HandleMessageOutcome(st, msgs[0], now);
      var saved := if Saves(RouteOf(msgs[0].topic, st.interfaceMode)) then Encode(next.event, next.stations) else img;
      SavedImage(next, msgs[1..], now, saved)
  }

  /** In background mode no message can start a station. */
  lemma BackgroundMessagesStartNothing(st: State, m: Message, now: int)
    requires IsRegistry(st.stations) && !st.interfaceMode
    ensures forall i :: 0 <= i < NUM_STATIONS ==>
      HandleMessageOutcome(st, m, now).stations[i].isActive ==> st.stations[i].isActive
  {
    var route := RouteOf(m.topic, st.interfaceMode);
    var r := HandleMessageOutcome(st, m, now);
    if route.StationConfig? {
      assert r.stations == StationConfigOutcome(st.stations, route.index, CStr(m.payload));
    }
  }

  /**
   * The duration both station handlers read: the text after the first '|' copied
   * into a buffer of `size` characters, then `atoi`.
   */
  method ReadDuration(payloadStr: array<char>, size: nat) returns (d: int)
    requires '\0' in payloadStr[..]
    requires |DurationPart(CStr(payloadStr[..]))| + 2 <= size
    ensures d == Atoi(DurationPart(CStr(payloadStr[..])))
  {
    var dur := new char[size];
    var sep := IndexOf(CStr(payloadStr[..]), "|");
    CStrTerminated(payloadStr[..]);
    CStrFrom(payloadStr[..], sep + 1);
    assert payloadStr[sep + 1..] == payloadStr[..][sep + 1..];
    SubstrFrom(payloadStr, dur, sep + 1);
    d := Atoi(CStr(dur[..]));
  }

  /**
   * The schedule `process_topic_station_config` reads: the text before the first
   * '|' copied into the station's 40-character `cron` buffer.
   */
  method ReadCron(payloadStr: array<char>) returns (cron: seq<char>)
    requires '\0' in payloadStr[..]
    requires IndexOf(CStr(payloadStr[..]), "|") < 40
    ensures cron == CronPart(CStr(payloadStr[..]))
  {
    ghost var text := CStr(payloadStr[..]);
    CStrTerminated(payloadStr[..]);
    var sep := IndexOf(CStr(payloadStr[..]), "|");
    var cronBuf := new char[40];
    Substr(payloadStr, cronBuf, 0, sep);
    ghost var n := Max0(sep);
    assert cronBuf[..n] == text[..n];
    assert cronBuf[..] == text[..n] + ['\0'] + cronBuf[n + 1..];
    CStrOfTerminated(text[..n], cronBuf[n + 1..]);
    cron := CStr(cronBuf[..]);
  }

  /** The payload copied into a fresh buffer with a terminating NUL, as the callback does. */
  method NulTerminated(payload: seq<char>) returns (buf: array<char>)
    ensures fresh(buf) && buf[..] == payload + ['\0']
    ensures '\0' in buf[..] && CStr(buf[..]) == CStr(payload)
  {
    buf := new char[|payload| + 1](i requires 0 <= i < |payload| + 1 =>
      if i < |payload| then payload[i] else '\0');
    assert buf[..] == payload + ['\0'];
    assert buf[..][|payload|] == '\0';
    var t := CStr(payload);
    CStrUnique(payload + ['\0'], t);
  }

  class StationController {
    var enabled: bool
    var interfaceMode: bool
    const stations: array<Station>
    var stationEvent: StationEvent
    const eeprom: Eeprom

    ghost predicate Valid()
      reads this, stations, eeprom
    {
      stations.Length == NUM_STATIONS
      && WellFormed(stationEvent, stations[..])
      && eeprom.Valid()
    }

    ghost function Abstract(): State
      reads this, stations
    {
      State(enabled, interfaceMode, stations[..], stationEvent)
    }

    /** The controller as the header's default initialisers build it. */
    constructor (store: Eeprom)
      requires store.Valid()
      ensures Valid() && fresh(stations) && eeprom == store
      ensures enabled && !interfaceMode
      ensures stationEvent == NoEvent && stations[..] == InitialRegistry()
    {
      var init := InitialRegistry();
      enabled := true;
      interfaceMode := false;
      stations := new Station[NUM_STATIONS](i requires 0 <= i < NUM_STATIONS => init[i]);
      stationEvent := NoEvent;
      eeprom := store;
      new;
      assert stations[..] == init;
    }

    /** `save`: writes the marker, the pending event and every station record. */
    method Save()
      requires Valid()
      modifies eeprom
      ensures Valid()
      ensures eeprom.Contents() == Encode(stationEvent, stations[..])
    {
      eeprom.marker := MARKER;
      eeprom.event := stationEvent;
      var i := 0;
      while i < NUM_STATIONS
        invariant 0 <= i <= NUM_STATIONS
        invariant |eeprom.records| == NUM_STATIONS
        invariant eeprom.records[..i] == stations[..i]
        invariant eeprom.marker == MARKER && eeprom.event == stationEvent
      {
        eeprom.records := eeprom.records[i := stations[i]];
        i := i + 1;
      }
      assert eeprom.records == eeprom.records[..NUM_STATIONS];
    }

    /** `load`: with the marker present, restores the pending event and every station. */
    method Load()
      requires Valid()
      modifies this, stations
      ensures Valid()
      ensures Abstract() == Restore(old(Abstract()), eeprom.Contents())
    {
      if eeprom.marker == MARKER {
        stationEvent := eeprom.event;
        var i := 0;
        while i < NUM_STATIONS
          invariant 0 <= i <= NUM_STATIONS
          invariant stations[..i] == eeprom.records[..i]
          invariant stationEvent == eeprom.event
          invariant enabled == old(enabled) && interfaceMode == old(interfaceMode)
        {
          stations[i] := eeprom.records[i];
          i := i + 1;
        }
        assert stations[..] == stations[..NUM_STATIONS];
      }
    }

    /** `check_stop_stations(force)`. */
    method CheckStopStations(force: bool, now: int)
      requires Valid()
      modifies stations
      ensures Valid()
      ensures stations[..] == StopOverdue(old(stations[..]), now, force)
    {
      var i := 0;
      while i < NUM_STATIONS
        invariant 0 <= i <= NUM_STATIONS
        invariant forall j :: 0 <= j < i ==> stations[j] == Sweep(old(stations[j]), now, force)
        invariant forall j :: i <= j < NUM_STATIONS ==> stations[j] == old(stations[j])
      {
        var station := stations[i];
        if station.isActive {
          if force || now - station.started > station.duration {
            stations[i] := Stop(station);
          }
        }
        i := i + 1;
      }
    }

    /** `next_station_event`: computes the next event, stores it and saves. */
    method NextStationEvent(now: int, cronNext: CronNext) returns (ev: StationEvent)
      requires Valid()
      modifies this, eeprom
      ensures Valid()
      ensures ev == NextEvent(stations[..], now, cronNext) && stationEvent == ev
      ensures stations[..] == old(stations[..])
      ensures enabled == old(enabled) && interfaceMode == old(interfaceMode)
      ensures eeprom.Contents() == Encode(ev, stations[..])
    {
      var next := NoEvent;
      var i := 0;
      while i < NUM_STATIONS
        invariant 0 <= i <= NUM_STATIONS
        invariant next == NextEventUpTo(stations[..], i, now, cronNext)
      {
        var station := stations[i];
        if station.isActive {
          var t := station.started + station.duration;
          if next.time == 0 || next.time > t {
            next := StationEvent(station.id, t, STOP);
          }
        } else if |station.cron| > 0 {
          var t := cronNext(station.cron, now);
          if next.time == 0 || next.time > t {
            next := StationEvent(station.id, t, START);
          }
        }
        i := i + 1;
      }
      stationEvent := next;
      Save();
      ev := next;
    }

    /** `process_station_event`. */
    method ProcessStationEvent(now: int)
      requires Valid()
      modifies stations, eeprom
      ensures Valid()
      ensures stations[..] == ProcessOutcome(old(stations[..]), stationEvent, enabled, interfaceMode, now)
      ensures StartsScheduled(stationEvent, enabled, interfaceMode, now) ==>
        eeprom.Contents() == Encode(stationEvent, stations[..])
      ensures !StartsScheduled(stationEvent, enabled, interfaceMode, now) ==>
        eeprom.Contents() == old(eeprom.Contents())
    {
      if interfaceMode || stationEvent.id == -1 {
        return;
      }
      CheckStopStations(false, now);
      if stationEvent.kind == START {
        if enabled {
          if now > stationEvent.time + LATE_TOLERANCE {
            // out of sync with the clock: the event is skipped
          } else if now < stationEvent.time - EARLY_TOLERANCE {
            // too early: nothing to do on this pass
          } else {
            CheckStopStations(true, now);
            var k := stationEvent.id - 1;
            stations[k] := Start(stations[k], now, 0);
            Save();
          }
        }
      }
    }

    /** `process_topic_enabled_set`: enabled exactly when the payload is "on". */
    method ProcessTopicEnabledSet(payloadStr: array<char>)
      requires Valid()
      modifies this`enabled
      ensures Valid()
      ensures enabled == (old(CStr(payloadStr[..])) == "on")
    {
      enabled := CStr(payloadStr[..]) == "on";
    }

    /** `process_topic_mode_set`: interface mode when the payload starts with "on"; saves. */
    method ProcessTopicModeSet(payloadStr: array<char>)
      requires Valid()
      modifies this`interfaceMode, eeprom
      ensures Valid()
      ensures interfaceMode == StartsWith("on", old(CStr(payloadStr[..])))
      ensures eeprom.Contents() == Encode(stationEvent, stations[..])
    {
      interfaceMode := StartsWith("on", CStr(payloadStr[..]));
      Save();
    }

    /** `set_interface_mode`. */
    method SetInterfaceMode(mode: bool)
      requires Valid()
      modifies this`interfaceMode, eeprom
      ensures Valid()
      ensures interfaceMode == mode
      ensures eeprom.Contents() == Encode(stationEvent, stations[..])
    {
      interfaceMode := mode;
      Save();
    }

    /** `process_topic_station_set` for the station at index `k`. */
    method ProcessTopicStationSet(k: int, payloadStr: array<char>, now: int)
      requires Valid() && 0 <= k < NUM_STATIONS
      requires '\0' in payloadStr[..]
      requires StartsWith("on", CStr(payloadStr[..])) ==> SetFits(CStr(payloadStr[..]))
      modifies stations, eeprom
      ensures Valid()
      ensures stations[..] == StationSetOutcome(old(stations[..]), k, old(CStr(payloadStr[..])), now)
      ensures eeprom.Contents() == Encode(stationEvent, stations[..])
    {
      ghost var text := CStr(payloadStr[..]);
      ghost var before := stations[..];
      if StartsWith("on", CStr(payloadStr[..])) {
        CheckStopStations(true, now);
        var d := ReadDuration(payloadStr, 20);
        stations[k] := Start(stations[k], now, d);
        assert stations[..] == StartExclusive(before, k, now, d);
      } else if StartsWith("off", CStr(payloadStr[..])) {
        stations[k] := Stop(stations[k]);
      }
      Save();
    }

    /** `process_topic_station_config` for the station at index `k`. */
    method ProcessTopicStationConfig(k: int, payloadStr: array<char>)
      requires Valid() && 0 <= k < NUM_STATIONS
      requires '\0' in payloadStr[..]
      requires ConfigFits(CStr(payloadStr[..]))
      modifies stations, eeprom
      ensures Valid()
      ensures stations[..] == StationConfigOutcome(old(stations[..]), k, old(CStr(payloadStr[..])))
      ensures eeprom.Contents() == Encode(stationEvent, stations[..])
    {
      ghost var text := CStr(payloadStr[..]);
      ghost var before := stations[..];
      ghost var after := StationConfigOutcome(before, k, text);
      assert WellFormed(stationEvent, after);
      var cron := ReadCron(payloadStr);
      var d := ReadDuration(payloadStr, 10);
      stations[k] := stations[k].(cron := cron, duration := d);
      assert stations[..] == after;
      assert WellFormed(stationEvent, stations[..]) && eeprom.Valid();
      Save();
    }

    /** The handler call the callback makes for `route`, on the NUL-terminated payload. */
    method Dispatch(route: Route, payloadStr: array<char>, now: int)
      requires Valid()
      requires route.StationSet? || route.StationState? || route.StationConfig? ==>
        0 <= route.index < NUM_STATIONS
      requires '\0' in payloadStr[..]
      requires PayloadFits(route, CStr(payloadStr[..]))
      modifies this, stations, eeprom
      ensures Valid()
      ensures Abstract() == HandleOutcome(old(Abstract()), route, old(CStr(payloadStr[..])), now)
      ensures Saves(route) ==> eeprom.Contents() == Encode(stationEvent, stations[..])
      ensures !Saves(route) ==> eeprom.Contents() == old(eeprom.Contents())
    {
      match route
      case ModeSet =>
        ProcessTopicModeSet(payloadStr);
      case EnabledSet =>
        ProcessTopicEnabledSet(payloadStr);
      case StationSet(k) =>
        ProcessTopicStationSet(k, payloadStr, now);
      case StationState(k) =>
        // reports the station's state; nothing changes
      case StationConfig(k) =>
        ProcessTopicStationConfig(k, payloadStr);
      case Ignored =>
    }

    /**
     * The message callback registered in `init`: copies the payload into a
     * NUL-terminated buffer and hands it to the handler the topic selects.
     */
    method HandleMessage(m: Message, now: int)
      requires Valid()
      requires PayloadFits(RouteOf(m.topic, interfaceMode), CStr(m.payload))
      modifies this, stations, eeprom
      ensures Valid()
      ensures Abstract() == HandleMessageOutcome(old(Abstract()), m, now)
      ensures Saves(RouteOf(m.topic, old(interfaceMode))) ==>
        eeprom.Contents() == Encode(stationEvent, stations[..])
      ensures !Saves(RouteOf(m.topic, old(interfaceMode))) ==>
        eeprom.Contents() == old(eeprom.Contents())
    {
      var payloadStr := NulTerminated(m.payload);
      var route := RouteOf(m.topic, interfaceMode);
      Dispatch(route, payloadStr, now);
    }

    /** Handles `msgs` in order, as the message loop delivers them. */
    method HandleMessages(msgs: seq<Message>, now: int)
      requires Valid()
      requires forall m :: m in msgs ==> MessageFits(m)
      modifies this, stations, eeprom
      ensures Valid()
      ensures Abstract() == HandleAll(old(Abstract()), msgs, now)
      ensures eeprom.Contents() == SavedImage(old(Abstract()), msgs, now, old(eeprom.Contents()))
    {
      var i := 0;
      while i < |msgs|
        invariant 0 <= i <= |msgs|
        invariant Valid()
        invariant HandleAll(Abstract(), msgs[i..], now) == HandleAll(old(Abstract()), msgs, now)
        invariant SavedImage(Abstract(), msgs[i..], now, eeprom.Contents())
          == SavedImage(old(Abstract()), msgs, now, old(eeprom.Contents()))
      {
        assert msgs[i] in msgs;
        assert msgs[i..][1..] == msgs[i + 1..];
        HandleMessage(msgs[i], now);
        i := i + 1;
      }
    }

    /**
     * `init` without the clock and network set-up: restores the saved state, then
     * handles the retained messages the broker delivers.
     */
    method Init(retained: seq<Message>, now: int)
      requires Valid()
      requires forall m :: m in retained ==> MessageFits(m)
      modifies this, stations, eeprom
      ensures Valid()
      ensures Abstract() == HandleAll(Restore(old(Abstract()), old(eeprom.Contents())), retained, now)
      ensures eeprom.Contents() ==
        SavedImage(Restore(old(Abstract()), old(eeprom.Contents())), retained, now, old(eeprom.Contents()))
    {
      Load();
      HandleMessages(retained, now);
    }
  }
}
