/**
 * The scheduling decisions of `StationController` (esp8266/src/stations.cpp), stated
 * on the registry's contents: the overdue/forced stop sweep, the choice of the next
 * event, and what processing the pending event does to the stations.
 */
module Schedule {
  import opened Stations

  /** `cron_next` as seen by the controller: the next matching time after `now`. */
  type CronNext = (seq<char>, int) -> int

  /** A run has gone on strictly longer than its duration. */
  predicate Overdue(s: Station, now: int) {
    now - s.started > s.duration
  }

  /** One step of `check_stop_stations(force)`. */
  function Sweep(s: Station, now: int, force: bool): Station {
    if s.isActive && (force || Overdue(s, now)) then Stop(s) else s
  }

  /**
   * The registry after `check_stop_stations(force)`: a running station stops when the
   * sweep is forced or its run is overdue; every other station is left as it was.
   */
  function StopOverdue(sts: seq<Station>, now: int, force: bool): (r: seq<Station>)
    ensures |r| == |sts|
    ensures forall i :: 0 <= i < |r| ==>
      (r[i].isActive <==> sts[i].isActive && !force && !Overdue(sts[i], now))
    ensures forall i :: 0 <= i < |r| ==> r[i] == sts[i] || (sts[i].isActive && r[i] == Stop(sts[i]))
    ensures IsRegistry(sts) ==> IsRegistry(r)
    ensures AtMostOneActive(sts) ==> AtMostOneActive(r)
  {
    seq(|sts|, i requires 0 <= i < |sts| => Sweep(sts[i], now, force))
  }

  /** After a forced sweep nothing runs, and sweeping again changes nothing. */
  lemma ForcedSweepStopsAll(sts: seq<Station>, now: int, later: int)
    ensures forall i :: 0 <= i < |sts| ==> !StopOverdue(sts, now, true)[i].isActive
    ensures StopOverdue(StopOverdue(sts, now, true), later, true) == StopOverdue(sts, now, true)
    ensures StopOverdue(StopOverdue(sts, now, true), later, false) == StopOverdue(sts, now, true)
  {
  }

  /** A non-forced sweep at the same instant is idempotent. */
  lemma SweepIdempotent(sts: seq<Station>, now: int)
    ensures StopOverdue(StopOverdue(sts, now, false), now, false) == StopOverdue(sts, now, false)
  {
  }

  /** What one station offers to `next_station_event`. */
  datatype Candidate = NoCandidate | Candidate(time: int, kind: EventType)

  /**
   * A running station offers to STOP when its run ends; an idle station with a
   * schedule offers to START at the schedule's next time; others offer nothing.
   */
  function CandidateOf(s: Station, now: int, cronNext: CronNext): (c: Candidate)
    ensures c.Candidate? <==> s.isActive || |s.cron| > 0
    ensures c.Candidate? ==> (c.kind == STOP <==> s.isActive) && c.kind != NOOP
    ensures s.isActive ==> c.time == s.started + s.duration
    ensures !s.isActive && |s.cron| > 0 ==> c.time == cronNext(s.cron, now)
  {
    if s.isActive then Candidate(s.started + s.duration, STOP)
    else if |s.cron| > 0 then Candidate(cronNext(s.cron, now), START)
    else NoCandidate
  }

  /**
   * One iteration of the loop in `next_station_event`: the candidate replaces the
   * running choice when none is held yet (time 0) or when it is strictly earlier.
   */
  function Consider(acc: StationEvent, s: Station, now: int, cronNext: CronNext): StationEvent {
    match CandidateOf(s, now, cronNext)
    case NoCandidate => acc
    case Candidate(t, k) => if acc.time == 0 || acc.time > t then StationEvent(s.id, t, k) else acc
  }

  /** The running choice after the first `n` stations. */
  function NextEventUpTo(sts: seq<Station>, n: nat, now: int, cronNext: CronNext): (ev: StationEvent)
    requires n <= |sts|
    ensures ev == NoEvent || (ev.kind != NOOP && exists k :: 0 <= k < n && ev.id == sts[k].id)
  {
    if n == 0 then NoEvent
    else Consider(NextEventUpTo(sts, n - 1, now, cronNext), sts[n - 1], now, cronNext)
  }

  /** The event `next_station_event` computes. */
  function NextEvent(sts: seq<Station>, now: int, cronNext: CronNext): (ev: StationEvent)
    ensures IsRegistry(sts) ==> WellFormedEvent(ev)
  {
    NextEventUpTo(sts, |sts|, now, cronNext)
  }

  /** No station offers an event at time 0, the value the loop reads as "none yet". */
  predicate NoCandidateAtZero(sts: seq<Station>, now: int, cronNext: CronNext) {
    forall j :: 0 <= j < |sts| && CandidateOf(sts[j], now, cronNext).Candidate? ==>
      CandidateOf(sts[j], now, cronNext).time != 0
  }

  /**
   * Station `k` (among the first `n`) wins with `ev`: `ev` is its candidate, no
   * candidate is earlier, and every candidate before `k` is strictly later.
   */
  predicate Wins(sts: seq<Station>, n: nat, now: int, cronNext: CronNext, k: nat, ev: StationEvent)
    requires k < n <= |sts|
  {
    ev.id == sts[k].id
    && CandidateOf(sts[k], now, cronNext) == Candidate(ev.time, ev.kind)
    && forall j :: 0 <= j < n && CandidateOf(sts[j], now, cronNext).Candidate? ==>
         ev.time <= CandidateOf(sts[j], now, cronNext).time
         && (j < k ==> ev.time < CandidateOf(sts[j], now, cronNext).time)
  }

  /** `ev` is the earliest candidate of the first `n` stations, or NoEvent when there is none. */
  predicate Earliest(sts: seq<Station>, n: nat, now: int, cronNext: CronNext, ev: StationEvent)
    requires n <= |sts|
  {
    (ev == NoEvent && forall j :: 0 <= j < n ==> CandidateOf(sts[j], now, cronNext).NoCandidate?)
    || (exists k :: 0 <= k < n && Wins(sts, n, now, cronNext, k, ev))
  }

  /**
   * The running minimum picks the earliest candidate, the lowest index on a tie, and
   * gives NoEvent exactly when no station offers anything.
   */
  lemma {:induction false} NextEventUpToIsEarliest(sts: seq<Station>, n: nat, now: int, cronNext: CronNext)
    requires n <= |sts|
    requires NoCandidateAtZero(sts, now, cronNext)
    ensures Earliest(sts, n, now, cronNext, NextEventUpTo(sts, n, now, cronNext))
  {
    if n > 0 {
      NextEventUpToIsEarliest(sts, n - 1, now, cronNext);
      var acc := NextEventUpTo(sts, n - 1, now, cronNext);
      var ev := NextEventUpTo(sts, n, now, cronNext);
      var c := CandidateOf(sts[n - 1], now, cronNext);
      if acc == NoEvent {
        if c.Candidate? {
          assert Wins(sts, n, now, cronNext, n - 1, ev);
        }
      } else {
        var k :| 0 <= k < n - 1 && Wins(sts, n - 1, now, cronNext, k, acc);
        if c.Candidate? && acc.time > c.time {
          assert Wins(sts, n, now, cronNext, n - 1, ev);
        } else {
          assert Wins(sts, n, now, cronNext, k, ev);
        }
      }
    }
  }

  /**
   * `next_station_event` over the whole registry: NoEvent when no station offers an
   * event; otherwise the station with the earliest time, the lower id on a tie.
   */
  lemma NextEventIsEarliest(sts: seq<Station>, now: int, cronNext: CronNext)
    requires IsRegistry(sts)
    requires NoCandidateAtZero(sts, now, cronNext)
    ensures var ev := NextEvent(sts, now, cronNext);
      (ev == NoEvent <==> forall j :: 0 <= j < |sts| ==> CandidateOf(sts[j], now, cronNext).NoCandidate?)
      && (ev != NoEvent ==>
            CandidateOf(sts[ev.id - 1], now, cronNext) == Candidate(ev.time, ev.kind)
            && forall j :: 0 <= j < |sts| && CandidateOf(sts[j], now, cronNext).Candidate? ==>
                 ev.time <= CandidateOf(sts[j], now, cronNext).time
                 && (sts[j].id < ev.id ==> ev.time < CandidateOf(sts[j], now, cronNext).time))
  {
    NextEventUpToIsEarliest(sts, |sts|, now, cronNext);
    var ev := NextEvent(sts, now, cronNext);
    if ev != NoEvent {
      var k :| 0 <= k < |sts| && Wins(sts, |sts|, now, cronNext, k, ev);
      assert k == ev.id - 1;
    }
  }

  /** With no station running among the first `n`, the running choice is never a STOP. */
  lemma {:induction false} NoStopWhenIdle(sts: seq<Station>, n: nat, now: int, cronNext: CronNext)
    requires n <= |sts|
    requires forall j :: 0 <= j < n ==> !sts[j].isActive
    ensures NextEventUpTo(sts, n, now, cronNext).kind != STOP
  {
    if n > 0 {
      NoStopWhenIdle(sts, n - 1, now, cronNext);
    }
  }

  /** After a forced sweep the next event can only be a START, or none. */
  lemma NextEventAfterForcedSweep(sts: seq<Station>, now: int, later: int, cronNext: CronNext)
    ensures NextEvent(StopOverdue(sts, now, true), later, cronNext).kind != STOP
  {
    var idle := StopOverdue(sts, now, true);
    NoStopWhenIdle(idle, |idle|, later, cronNext);
  }

  /** The time 0 sentinel: a candidate at time 0 is overtaken by any later candidate. */
  lemma CandidateAtZeroIsOvertaken(s1: Station, s2: Station, now: int, cronNext: CronNext)
    requires CandidateOf(s1, now, cronNext).Candidate? && CandidateOf(s1, now, cronNext).time == 0
    requires CandidateOf(s2, now, cronNext).Candidate? && CandidateOf(s2, now, cronNext).time > 0
    ensures NextEventUpTo([s1, s2], 2, now, cronNext).id == s2.id
  {
  }

  /**
   * Force-stop every station, then start station `k` at `now` with `dur`: how both
   * start paths keep a single station running.
   */
  function StartExclusive(sts: seq<Station>, k: int, now: int, dur: int): (r: seq<Station>)
    requires IsRegistry(sts) && 0 <= k < NUM_STATIONS
    ensures IsRegistry(r) && OnlyActive(r, k)
    ensures r[k].started == now && r[k].cron == sts[k].cron
    ensures dur > 0 ==> r[k].duration == Min(dur, MAX_DURATION)
    ensures dur <= 0 ==> r[k].duration == (if sts[k].isActive then 0 else sts[k].duration)
    ensures forall i :: 0 <= i < |sts| && i != k ==> r[i] == StopOverdue(sts, now, true)[i]
  {
    var idle := StopOverdue(sts, now, true);
    idle[k := Start(idle[k], now, dur)]
  }

  /** START is rejected when `now` is after the event by more than this (seconds). */
  const LATE_TOLERANCE: int := 30

  /** START is deferred when `now` is before the event by more than this (seconds). */
  const EARLY_TOLERANCE: int := 120

  predicate WithinWindow(ev: StationEvent, now: int) {
    !(now > ev.time + LATE_TOLERANCE) && !(now < ev.time - EARLY_TOLERANCE)
  }

  /** `process_station_event` starts the event's station. */
  predicate StartsScheduled(ev: StationEvent, enabled: bool, interfaceMode: bool, now: int) {
    !interfaceMode && ev.id != -1 && ev.kind == START && enabled && WithinWindow(ev, now)
  }

  /**
   * The registry after `process_station_event` with pending event `ev`: nothing in
   * interface mode or without an event; otherwise the overdue sweep, then, for a
   * START that is enabled and inside the window, a forced sweep and the start of the
   * event's station at `now` with the duration it has.
   */
  function ProcessOutcome(sts: seq<Station>, ev: StationEvent, enabled: bool, interfaceMode: bool, now: int): (r: seq<Station>)
    requires IsRegistry(sts) && WellFormedEvent(ev)
    ensures IsRegistry(r)
    ensures AtMostOneActive(sts) ==> AtMostOneActive(r)
    ensures interfaceMode || ev.id == -1 ==> r == sts
    ensures !interfaceMode && ev.id != -1 && !StartsScheduled(ev, enabled, interfaceMode, now) ==>
      r == StopOverdue(sts, now, false)
    ensures StartsScheduled(ev, enabled, interfaceMode, now) ==>
      OnlyActive(r, ev.id - 1)
      && r[ev.id - 1].started == now
      && r[ev.id - 1].duration == (if sts[ev.id - 1].isActive then 0 else sts[ev.id - 1].duration)
      && r[ev.id - 1].cron == sts[ev.id - 1].cron
    ensures StartsScheduled(ev, enabled, interfaceMode, now) ==>
      forall i :: 0 <= i < |sts| && i != ev.id - 1 ==>
        r[i] == (if sts[i].isActive then Stop(sts[i]) else sts[i])
  {
    if interfaceMode || ev.id == -1 then sts
    else
      var swept := StopOverdue(sts, now, false);
      if StartsScheduled(ev, enabled, interfaceMode, now) then StartExclusive(swept, ev.id - 1, now, 0)
      else swept
  }

  /** No station starts on a stale START: only the overdue sweep happens. */
  lemma StaleStartIsSkipped(sts: seq<Station>, ev: StationEvent, enabled: bool, now: int)
    requires IsRegistry(sts) && WellFormedEvent(ev) && ev.kind == START
    requires now > ev.time + LATE_TOLERANCE || now < ev.time - EARLY_TOLERANCE || !enabled
    ensures forall i :: 0 <= i < |sts| ==>
      ProcessOutcome(sts, ev, enabled, false, now)[i].isActive ==> sts[i].isActive
  {
  }
}
