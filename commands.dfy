/**
 * What the station commands do to the registry: `process_topic_station_set` and
 * `process_topic_station_config` (esp8266/src/stations.cpp), stated on the payload's
 * C string.
 */
module Commands {
  import opened CStrings
  import opened Stations
  import opened Schedule

  /** The duration text of a payload: after the first '|', or all of it without one. */
  function DurationPart(text: seq<char>): seq<char> {
    text[IndexOf(text, "|") + 1..]
  }

  /** The duration buffer of `process_topic_station_set` (20 characters) holds that text. */
  predicate SetFits(text: seq<char>) {
    |DurationPart(text)| + 2 <= 20
  }

  /**
   * The registry after a `set` payload for station `k` at `now`: "on..." force-stops
   * every station and starts `k`, with the duration after '|' when it is positive;
   * "off..." stops `k`; anything else changes nothing.
   */
  function StationSetOutcome(sts: seq<Station>, k: int, text: seq<char>, now: int): (r: seq<Station>)
    requires IsRegistry(sts) && 0 <= k < NUM_STATIONS
    ensures IsRegistry(r)
    ensures AtMostOneActive(sts) ==> AtMostOneActive(r)
    ensures StartsWith("on", text) ==>
      OnlyActive(r, k) && r[k].started == now && r[k].cron == sts[k].cron
      && r[k].duration == (var d := Atoi(DurationPart(text));
                           if d > 0 then Min(d, MAX_DURATION)
                           else if sts[k].isActive then 0 else sts[k].duration)
      && forall i :: 0 <= i < |sts| && i != k ==> r[i] == StopOverdue(sts, now, true)[i]
    ensures !StartsWith("on", text) && StartsWith("off", text) ==> r == sts[k := Stop(sts[k])]
    ensures !StartsWith("on", text) && !StartsWith("off", text) ==> r == sts
  {
    if StartsWith("on", text) then StartExclusive(sts, k, now, Atoi(DurationPart(text)))
    else if StartsWith("off", text) then sts[k := Stop(sts[k])]
    else sts
  }

  /** "on" alone, with no '|', keeps the station's duration (atoi reads 0). */
  lemma BareOnKeepsDuration(sts: seq<Station>, k: int, now: int)
    requires IsRegistry(sts) && 0 <= k < NUM_STATIONS && !sts[k].isActive
    ensures StationSetOutcome(sts, k, "on", now)[k].duration == sts[k].duration
  {
    assert IndexOf("on", "|") == -1 by {
      assert forall j :: OccursAt("on", "|", j) ==> "on"[j] == '|';
    }
    AtoiOfNonNumeric("on");
  }

  /** "on|120" for station 3 while station 1 runs: station 1 stops, station 3 runs for 120 s. */
  lemma AdHocStartScenario(sts: seq<Station>, now: int)
    requires IsRegistry(sts) && sts[0].isActive
    ensures var r := StationSetOutcome(sts, 2, "on|120", now);
      !r[0].isActive && r[0].duration == 0 && r[2].isActive && r[2].started == now && r[2].duration == 120
  {
    var text := "on|120";
    assert text == "on" + "|" + "120";
    IndexOfSeparator("on", "120");
    assert DurationPart(text) == "120";
    assert StartsWith("on", text);
    AtoiOf120();
  }

  lemma AtoiOf120()
    ensures Atoi("120") == 120
  {
    assert NatToDecimal(1) == "1";
    assert NatToDecimal(12) == NatToDecimal(1) + "2";
    assert NatToDecimal(120) == NatToDecimal(12) + "0";
    assert NatToDecimal(120) + [] == "120";
    AtoiOfDecimal(120, []);
  }

  /** The schedule of a config payload: the text before the first '|', or empty without one. */
  function CronPart(text: seq<char>): seq<char> {
    var sep := IndexOf(text, "|");
    if sep < 0 then [] else text[..sep]
  }

  /**
   * The buffers of `process_topic_station_config`: the schedule goes to the station's
   * 40-character `cron`, the duration text to a 10-character buffer.
   */
  predicate ConfigFits(text: seq<char>) {
    IndexOf(text, "|") < 40 && |DurationPart(text)| + 2 <= 10
  }

  /** The station after a config payload: new schedule and duration, run state untouched. */
  function ConfigOutcome(s: Station, text: seq<char>): (r: Station)
    ensures r.cron == CronPart(text) && r.duration == Atoi(DurationPart(text))
    ensures r.id == s.id && r.enablePin == s.enablePin
    ensures r.isActive == s.isActive && r.started == s.started
  {
    s.(cron := CronPart(text), duration := Atoi(DurationPart(text)))
  }

  /** The registry after a config payload for station `k`: only that station's schedule and duration change. */
  function StationConfigOutcome(sts: seq<Station>, k: int, text: seq<char>): (r: seq<Station>)
    requires IsRegistry(sts) && 0 <= k < NUM_STATIONS
    ensures IsRegistry(r) && |r| == |sts|
    ensures r[k] == ConfigOutcome(sts[k], text)
    ensures forall i :: 0 <= i < |sts| && i != k ==> r[i] == sts[i]
    ensures forall i :: 0 <= i < |sts| ==> r[i].isActive == sts[i].isActive
    ensures AtMostOneActive(sts) ==> AtMostOneActive(r)
  {
    ReplaceKeepsExclusion(sts, k, ConfigOutcome(sts[k], text));
    sts[k := ConfigOutcome(sts[k], text)]
  }

  /** A payload that fits the buffers stores a schedule of at most 39 characters. */
  lemma ConfigCronFitsBuffer(text: seq<char>)
    requires ConfigFits(text)
    ensures |CronPart(text)| <= 39
  {
  }

  /** Decoding an encoded config "<cron>|<n>" gives back the schedule and the duration. */
  lemma ConfigRoundTrip(cron: seq<char>, n: nat)
    requires '|' !in cron
    ensures CronPart(cron + "|" + NatToDecimal(n)) == cron
    ensures Atoi(DurationPart(cron + "|" + NatToDecimal(n))) == n
  {
    var text := cron + "|" + NatToDecimal(n);
    IndexOfSeparator(cron, NatToDecimal(n));
    assert text[..|cron|] == cron;
    assert text[|cron| + 1..] == NatToDecimal(n) + [];
    AtoiOfDecimal(n, []);
  }

  /** A config payload without '|' is accepted: empty schedule, `atoi` of the whole text. */
  lemma ConfigWithoutSeparator(text: seq<char>)
    requires '|' !in text
    ensures CronPart(text) == [] && DurationPart(text) == text
  {
    assert forall j :: OccursAt(text, "|", j) ==> text[j] == text[j..j + 1][0];
  }
}
