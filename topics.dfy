/**
 * Routing of incoming messages by topic: the branches of the message callback set up
 * in `StationController::init`, `get_station_from_topic` and `get_station_id`
 * (esp8266/src/stations.cpp).
 */
module Topics {
  import opened Wrappers
  import opened CStrings
  import opened Stations

  const MODE_SET_TOPIC := "lawn-irrigation/interface-mode/set"
  const ENABLED_SET_TOPIC := "lawn-irrigation/enabled/set"
  const STATION_TOPIC := "lawn-irrigation/station"

  /** The character C code reads at position `i` of a C string: the terminator past the end. */
  function CharAt(s: seq<char>, i: nat): char {
    if i < |s| then s[i] else '\0'
  }

  /**
   * `get_station_id`: the character just after the first "/station", minus '0',
   * converted to `uint8_t`; 0 when the topic has no "/station".
   */
  function GetStationId(topic: seq<char>): (r: int)
    ensures 0 <= r < 256
    ensures IndexOf(topic, "/station") == -1 ==> r == 0
  {
    var found := IndexOf(topic, "/station");
    if found < 0 then 0 else (CharAt(topic, found + 8) as int - '0' as int) % 256
  }

  /** `get_station_from_topic`: the array index of the addressed station, or none. */
  function StationIndexFromTopic(topic: seq<char>): (r: Option<int>)
    ensures r.Some? ==> 0 <= r.value < NUM_STATIONS
  {
    var id := GetStationId(topic);
    if id > 0 && id <= NUM_STATIONS then Some(id - 1) else None
  }

  /**
   * For a topic of bytes, a station is addressed exactly when the character after the
   * first "/station" is '1', '2' or '3', and the index is that digit minus one.
   */
  lemma StationIndexIsDigit(topic: seq<char>)
    requires IsCString(topic)
    ensures var f := IndexOf(topic, "/station");
      var r := StationIndexFromTopic(topic);
      (r.Some? <==> f >= 0 && '1' <= CharAt(topic, f + 8) <= '3')
      && (r.Some? ==> r.value == CharAt(topic, f + 8) as int - '1' as int)
  {
    var f := IndexOf(topic, "/station");
    if f >= 0 {
      var c := CharAt(topic, f + 8);
      assert c as int < 256;
    }
  }

  /** A topic that reaches the station branch of the callback: neither the mode nor the enabled topic. */
  predicate StationTopic(topic: seq<char>) {
    !StartsWith(MODE_SET_TOPIC, topic) && !StartsWith(ENABLED_SET_TOPIC, topic)
    && StartsWith(STATION_TOPIC, topic)
  }

  /** Where the message callback sends a message. */
  datatype Route =
    | ModeSet
    | EnabledSet
    | StationSet(index: int)
    | StationState(index: int)
    | StationConfig(index: int)
    | Ignored

  /**
   * The callback's dispatch: the mode and enabled topics by prefix; a station topic
   * goes to `set` or `state` only in interface mode, to `config` in either mode.
   */
  function RouteOf(topic: seq<char>, interfaceMode: bool): (r: Route)
    ensures r.ModeSet? <==> StartsWith(MODE_SET_TOPIC, topic)
    ensures r.EnabledSet? <==> !StartsWith(MODE_SET_TOPIC, topic) && StartsWith(ENABLED_SET_TOPIC, topic)
    ensures (r.StationSet? || r.StationState?) ==> interfaceMode
    ensures (r.StationSet? || r.StationState? || r.StationConfig?) ==>
      StartsWith(STATION_TOPIC, topic) && StationIndexFromTopic(topic) == Some(r.index)
    ensures StationTopic(topic) ==>
      var k := StationIndexFromTopic(topic);
      (k.None? ==> r == Ignored)
      && (k.Some? && interfaceMode && IndexOf(topic, "set") > 0 ==> r == StationSet(k.value))
      && (k.Some? && interfaceMode && IndexOf(topic, "set") <= 0 && IndexOf(topic, "state") > 0 ==>
            r == StationState(k.value))
      && (k.Some? && !(interfaceMode && (IndexOf(topic, "set") > 0 || IndexOf(topic, "state") > 0)) ==>
            r == (if IndexOf(topic, "config") > 0 then StationConfig(k.value) else Ignored))
    ensures (!StartsWith(MODE_SET_TOPIC, topic) && !StartsWith(ENABLED_SET_TOPIC, topic)
      && !StartsWith(STATION_TOPIC, topic)) ==> r == Ignored
  {
    if StartsWith(MODE_SET_TOPIC, topic) then ModeSet
    else if StartsWith(ENABLED_SET_TOPIC, topic) then EnabledSet
    else if StartsWith(STATION_TOPIC, topic) then
      match StationIndexFromTopic(topic)
      case None => Ignored
      case Some(k) =>
        if interfaceMode && IndexOf(topic, "set") > 0 then StationSet(k)
        else if interfaceMode && IndexOf(topic, "state") > 0 then StationState(k)
        else if IndexOf(topic, "config") > 0 then StationConfig(k)
        else Ignored
    else Ignored
  }

  /** A config message routed in interface mode is routed the same way in background mode. */
  lemma ConfigRoutedInEitherMode(topic: seq<char>)
    ensures RouteOf(topic, true).StationConfig? ==> RouteOf(topic, false) == RouteOf(topic, true)
  {
  }

  /** The topic "lawn-irrigation/station<id><suffix>" of station `id` (1 to 3). */
  function StationTopicOf(id: int, suffix: seq<char>): seq<char>
    requires 1 <= id <= NUM_STATIONS
  {
    STATION_TOPIC + [('0' as int + id) as char] + suffix
  }

  /** A station's own topic passes the mode and enabled tests and reaches the station branch. */
  lemma StationTopicIsStationTopic(id: int, suffix: seq<char>)
    requires 1 <= id <= NUM_STATIONS && |suffix| >= 4
    ensures StationTopic(StationTopicOf(id, suffix))
  {
    var t := StationTopicOf(id, suffix);
    assert t[..23] == STATION_TOPIC;
    assert t[..27][16] == 's' != ENABLED_SET_TOPIC[16];
    if |MODE_SET_TOPIC| <= |t| {
      assert t[..|MODE_SET_TOPIC|][16] == 's' != MODE_SET_TOPIC[16];
    }
  }

  /** A station's own topic addresses that station. */
  lemma StationTopicAddresses(id: int, suffix: seq<char>)
    requires 1 <= id <= NUM_STATIONS
    ensures StationIndexFromTopic(StationTopicOf(id, suffix)) == Some(id - 1)
  {
    var t := StationTopicOf(id, suffix);
    assert t[..15] == "lawn-irrigation";
    assert t[15..23] == "/station";
    IndexOfAt(t, "/station", 15);
    assert CharAt(t, 23) == ('0' as int + id) as char;
  }

  /** Of the keywords the callback looks for, a config topic holds only "config", past its start. */
  lemma ConfigTopicKeywords(id: int)
    requires 1 <= id <= NUM_STATIONS
    ensures var t := StationTopicOf(id, "/config");
      IndexOf(t, "set") == -1 && IndexOf(t, "state") == -1 && IndexOf(t, "config") > 0
  {
    var c := ('0' as int + id) as char;
    var t := StationTopicOf(id, "/config");
    assert t == "lawn-irrigation/" + ['s'] + ("tation" + [c] + "/config");
    OnlyAt("lawn-irrigation/", 's', "tation" + [c] + "/config");
    NoOccurrence(t, "set", 1);
    NoOccurrence(t, "state", 4);
    assert t[25..31] == "config";
    IndexOfPositive(t, "config", 25);
  }

  /** A set topic holds "set" past its start and no "config". */
  lemma SetTopicKeywords(id: int)
    requires 1 <= id <= NUM_STATIONS
    ensures var t := StationTopicOf(id, "/set");
      IndexOf(t, "set") > 0 && IndexOf(t, "config") == -1
  {
    var t := StationTopicOf(id, "/set");
    assert t[25..28] == "set";
    IndexOfPositive(t, "set", 25);
    assert 'c' !in t;
    NoOccurrence(t, "config", 1);
  }

  /** A station's config topic reaches its config handler in either mode. */
  lemma ConfigTopicRoutes(id: int, interfaceMode: bool)
    requires 1 <= id <= NUM_STATIONS
    ensures RouteOf(StationTopicOf(id, "/config"), interfaceMode) == StationConfig(id - 1)
  {
    StationTopicIsStationTopic(id, "/config");
    StationTopicAddresses(id, "/config");
    ConfigTopicKeywords(id);
  }

  /** A station's set topic reaches its set handler in interface mode and nothing otherwise. */
  lemma SetTopicRoutes(id: int, interfaceMode: bool)
    requires 1 <= id <= NUM_STATIONS
    ensures RouteOf(StationTopicOf(id, "/set"), interfaceMode) ==
      if interfaceMode then StationSet(id - 1) else Ignored
  {
    StationTopicIsStationTopic(id, "/set");
    StationTopicAddresses(id, "/set");
    SetTopicKeywords(id);
  }
}
