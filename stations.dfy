/**
 * The station registry's records and constants (esp8266/src/stations.h) and the two
 * record operations `Station::start` and `Station::stop` (esp8266/src/stations.cpp).
 */
module Stations {

  /** NUM_STATIONS: the number of physical stations. */
  const NUM_STATIONS: nat := 3

  /** MAX_DURATION as written in the header; durations are counted in seconds. */
  const MAX_DURATION: int := 1800000

  /** The enable pins of the three stations (board pins; their numbers are opaque here). */
  datatype Pin = D5 | D6 | D7

  /**
   * One irrigation station. `cron` is the C string held in the record's 40-character
   * buffer; `duration` serves both as the configured run length and as the length of
   * the current run.
   */
  datatype Station = Station(
    id: int,
    enablePin: Pin,
    isActive: bool,
    started: int,
    duration: int,
    cron: seq<char>)

  datatype EventType = NOOP | START | STOP

  /** The pending event; the C++ field `type` is called `kind` here. */
  datatype StationEvent = StationEvent(id: int, time: int, kind: EventType)

  /** A default-constructed StationEvent. */
  const NoEvent := StationEvent(-1, 0, NOOP)

  function Min(a: int, b: int): int {
    if a <= b then a else b
  }

  /**
   * `Station::start(start, dur)`: marks the station running from `t`; a positive `dur`
   * replaces the duration, capped at MAX_DURATION, otherwise the duration is kept.
   */
  function Start(s: Station, t: int, dur: int): (r: Station)
    ensures r.isActive && r.started == t
    ensures dur > 0 ==> 0 < r.duration <= MAX_DURATION && r.duration == Min(dur, MAX_DURATION)
    ensures dur <= 0 ==> r.duration == s.duration
    ensures r.id == s.id && r.enablePin == s.enablePin && r.cron == s.cron
  {
    var d := if dur > 0 then (if dur > MAX_DURATION then MAX_DURATION else dur) else s.duration;
    s.(started := t, isActive := true, duration := d)
  }

  /** `Station::stop()`: the station is idle, with start time and duration cleared. */
  function Stop(s: Station): (r: Station)
    ensures !r.isActive && r.started == 0 && r.duration == 0
    ensures r.id == s.id && r.enablePin == s.enablePin && r.cron == s.cron
  {
    s.(started := 0, isActive := false, duration := 0)
  }

  /** Stopping is idempotent, and stopping a started station forgets the start. */
  lemma StopIdempotent(s: Station, t: int, dur: int)
    ensures Stop(Stop(s)) == Stop(s)
    ensures Stop(Start(s, t, dur)) == Stop(s)
  {
  }

  /** The pin wired to the station at array index `i`. */
  function PinOf(i: nat): Pin
    requires i < NUM_STATIONS
  {
    if i == 0 then D5 else if i == 1 then D6 else D7
  }

  /** A registry: NUM_STATIONS records, index `i` holding station `i + 1` on its pin. */
  predicate IsRegistry(sts: seq<Station>) {
    |sts| == NUM_STATIONS
    && forall i :: 0 <= i < |sts| ==> sts[i].id == i + 1 && sts[i].enablePin == PinOf(i)
  }

  /** The registry the controller is built with. */
  function InitialRegistry(): (r: seq<Station>)
    ensures IsRegistry(r)
    ensures forall i :: 0 <= i < |r| ==>
      !r[i].isActive && r[i].started == 0 && r[i].duration == 0 && r[i].cron == []
  {
    [Station(1, D5, false, 0, 0, ""),
     Station(2, D6, false, 0, 0, ""),
     Station(3, D7, false, 0, 0, "")]
  }

  /** Mutual exclusion of the valves: no two stations are running. */
  predicate AtMostOneActive(sts: seq<Station>) {
    forall i, j :: 0 <= i < |sts| && 0 <= j < |sts| && sts[i].isActive && sts[j].isActive ==> i == j
  }

  /** Station `k` is the one and only running station. */
  predicate OnlyActive(sts: seq<Station>, k: int) {
    0 <= k < |sts| && sts[k].isActive
    && forall i :: 0 <= i < |sts| && i != k ==> !sts[i].isActive
  }

  /**
   * Replacing station `k` by a record with the same id, pin and run state keeps the
   * registry shape and mutual exclusion.
   */
  lemma ReplaceKeepsExclusion(sts: seq<Station>, k: int, s: Station)
    requires 0 <= k < |sts|
    requires s.id == sts[k].id && s.enablePin == sts[k].enablePin && s.isActive == sts[k].isActive
    ensures forall i :: 0 <= i < |sts| ==> sts[k := s][i].isActive == sts[i].isActive
    ensures IsRegistry(sts) ==> IsRegistry(sts[k := s])
    ensures AtMostOneActive(sts) ==> AtMostOneActive(sts[k := s])
  {
  }

  /** A pending event is the default one or names a station with START or STOP. */
  predicate WellFormedEvent(ev: StationEvent) {
    ev == NoEvent || (1 <= ev.id <= NUM_STATIONS && ev.kind != NOOP)
  }

  /** What every reachable controller state satisfies. */
  predicate WellFormed(ev: StationEvent, sts: seq<Station>) {
    IsRegistry(sts) && AtMostOneActive(sts) && WellFormedEvent(ev)
  }
}
