/**
 * The firmware's entry points (esp8266/src/main.cpp): `setup` at boot, `loop` while
 * the board stays awake, and the deep-sleep length `enter_deep_sleep` computes.
 * The clock reading, the retained messages and the messages a loop pass receives
 * are parameters; entering deep sleep is modelled by returning its length.
 */
module Firmware {
  import opened Wrappers
  import opened Stations
  import opened Schedule
  import opened Persistence
  import opened Controller

  /** The longest deep sleep, in seconds (three hours). */
  const DEEP_SLEEP_THRESHOLD: int := 3 * 60 * 60

  /** A STOP or START is due after `now`. */
  predicate Upcoming(now: int, ev: StationEvent) {
    ev.kind != NOOP && ev.time > now
  }

  /** A sleep of `d` seconds stays within the threshold and does not pass an upcoming event. */
  predicate AdmissibleSleep(now: int, ev: StationEvent, d: int) {
    0 < d <= DEEP_SLEEP_THRESHOLD && (Upcoming(now, ev) ==> now + d <= ev.time)
  }

  /**
   * The sleep length of `enter_deep_sleep`: the time to the next event when it is
   * upcoming and at most the threshold away, otherwise the threshold. It is the
   * longest admissible sleep.
   */
  function SleepDuration(now: int, ev: StationEvent): (r: int)
    ensures AdmissibleSleep(now, ev, r)
    ensures forall d :: AdmissibleSleep(now, ev, d) ==> d <= r
    ensures !Upcoming(now, ev) ==> r == DEEP_SLEEP_THRESHOLD
  {
    if Upcoming(now, ev) && ev.time - now <= DEEP_SLEEP_THRESHOLD then ev.time - now
    else DEEP_SLEEP_THRESHOLD
  }

  /** An event at most the threshold away is slept to exactly; a farther one is not reached. */
  lemma SleepReachesNearEvent(now: int, ev: StationEvent)
    requires Upcoming(now, ev)
    ensures ev.time - now <= DEEP_SLEEP_THRESHOLD ==> now + SleepDuration(now, ev) == ev.time
    ensures ev.time - now > DEEP_SLEEP_THRESHOLD ==> now + SleepDuration(now, ev) < ev.time
  {
  }

  /**
   * `enter_deep_sleep`: recomputes, stores and saves the next event, and returns the
   * sleep length in seconds.
   */
  method EnterDeepSleep(ctl: StationController, now: int, cronNext: CronNext) returns (seconds: int)
    requires ctl.Valid()
    modifies ctl, ctl.eeprom
    ensures ctl.Valid()
    ensures ctl.stations[..] == old(ctl.stations[..])
    ensures ctl.enabled == old(ctl.enabled) && ctl.interfaceMode == old(ctl.interfaceMode)
    ensures ctl.stationEvent == NextEvent(ctl.stations[..], now, cronNext)
    ensures ctl.eeprom.Contents() == Encode(ctl.stationEvent, ctl.stations[..])
    ensures seconds == SleepDuration(now, ctl.stationEvent)
  {
    var ev := ctl.NextStationEvent(now, cronNext);
    seconds := DEEP_SLEEP_THRESHOLD;
    if ev.kind != NOOP && ev.time > now {
      var newSleep := ev.time - now;
      if newSleep <= DEEP_SLEEP_THRESHOLD {
        seconds := newSleep;
      }
    }
  }

  /**
   * The next boot's `load` reads back the image a sleeping board left: the event and
   * stations it slept on. The flags are not saved, so they stay those of `st`.
   */
  lemma WakeRestoresSleepState(st: State, ev: StationEvent, sts: seq<Station>)
    ensures Restore(st, Encode(ev, sts)) == st.(event := ev, stations := sts)
  {
    DecodeEncode(ev, sts);
  }

  /**
   * `setup`: builds the controller with its defaults over `store`, runs `init` (load,
   * then the retained messages), and in background mode processes the pending event
   * before computing the next one and sleeping. In interface mode it stays awake.
   */
  method Setup(store: Eeprom, now: int, retained: seq<Message>, cronNext: CronNext)
    returns (ctl: StationController, sleep: Option<int>)
    requires store.Valid()
    requires forall m :: m in retained ==> MessageFits(m)
    modifies store
    ensures ctl.Valid() && ctl.eeprom == store
    ensures var restored := Restore(State(true, false, InitialRegistry(), NoEvent), old(store.Contents()));
      var booted := HandleAll(restored, retained, now);
      if booted.interfaceMode then
        sleep == None && ctl.Abstract() == booted
        && ctl.eeprom.Contents() == SavedImage(restored, retained, now, old(store.Contents()))
      else
        ctl.stations[..] == ProcessOutcome(booted.stations, booted.event, booted.enabled, false, now)
        && ctl.stationEvent == NextEvent(ctl.stations[..], now, cronNext)
        && ctl.eeprom.Contents() == Encode(ctl.stationEvent, ctl.stations[..])
        && ctl.enabled == booted.enabled && !ctl.interfaceMode
        && sleep == Some(SleepDuration(now, ctl.stationEvent))
  {
    ctl := new StationController(store);
    ctl.Init(retained, now);
    sleep := None;
    if !ctl.interfaceMode {
      ctl.ProcessStationEvent(now);
      var seconds := EnterDeepSleep(ctl, now, cronNext);
      sleep := Some(seconds);
    }
  }

  /**
   * `loop`: once interface mode has been switched off, force-stops every station and
   * sleeps; otherwise handles the messages that arrived.
   */
  method Loop(ctl: StationController, now: int, incoming: seq<Message>, cronNext: CronNext)
    returns (sleep: Option<int>)
    requires ctl.Valid()
    requires forall m :: m in incoming ==> MessageFits(m)
    modifies ctl, ctl.stations, ctl.eeprom
    ensures ctl.Valid()
    ensures !old(ctl.interfaceMode) ==>
      ctl.stations[..] == StopOverdue(old(ctl.stations[..]), now, true)
      && ctl.stationEvent == NextEvent(ctl.stations[..], now, cronNext)
      && ctl.stationEvent.kind != STOP
      && ctl.eeprom.Contents() == Encode(ctl.stationEvent, ctl.stations[..])
      && ctl.enabled == old(ctl.enabled) && !ctl.interfaceMode
      && sleep == Some(SleepDuration(now, ctl.stationEvent))
    ensures old(ctl.interfaceMode) ==>
      sleep == None && ctl.Abstract() == HandleAll(old(ctl.Abstract()), incoming, now)
      && ctl.eeprom.Contents() == SavedImage(old(ctl.Abstract()), incoming, now, old(ctl.eeprom.Contents()))
  {
    if !ctl.interfaceMode {
      ctl.CheckStopStations(true, now);
      NextEventAfterForcedSweep(old(ctl.stations[..]), now, now, cronNext);
      var seconds := EnterDeepSleep(ctl, now, cronNext);
      return Some(seconds);
    }
    ctl.HandleMessages(incoming, now);
    sleep := None;
  }
}
