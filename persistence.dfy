/**
 * The persisted snapshot of `save`/`load` (esp8266/src/stations.cpp): a marker byte,
 * the pending event, then the station records. The byte layout is abstracted to a
 * record; the interface-mode and enabled flags are not part of it.
 */
module Persistence {
  import opened Wrappers
  import opened Stations

  /** EEPROM_MARKER: the first byte of a valid snapshot. */
  const MARKER: int := 112

  /** What the EEPROM holds: its first byte, then an event and NUM_STATIONS records. */
  datatype Image = Image(marker: int, event: StationEvent, stations: seq<Station>)

  /** The image `save` writes. */
  function Encode(ev: StationEvent, sts: seq<Station>): (img: Image)
    ensures img.marker == MARKER
  {
    Image(MARKER, ev, sts)
  }

  /** What `load` takes from an image: the event and stations, when the marker matches. */
  function Decode(img: Image): (r: Option<(StationEvent, seq<Station>)>)
    ensures r.Some? <==> img.marker == MARKER
    ensures r.Some? ==> r.value == (img.event, img.stations)
  {
    if img.marker == MARKER then Some((img.event, img.stations)) else None
  }

  /** Loading what was saved restores the event and every station. */
  lemma DecodeEncode(ev: StationEvent, sts: seq<Station>)
    ensures Decode(Encode(ev, sts)) == Some((ev, sts))
  {
  }

  /**
   * The EEPROM. Only `save` writes the marker, so an image that carries it holds a
   * well-formed state; any other first byte leaves the contents unspecified.
   */
  class Eeprom {
    var marker: int
    var event: StationEvent
    var records: seq<Station>

    ghost predicate Valid()
      reads this
    {
      0 <= marker < 256
      && |records| == NUM_STATIONS
      && (marker == MARKER ==> WellFormed(event, records))
    }

    function Contents(): Image
      reads this
    {
      Image(marker, event, records)
    }
  }
}
