/** The catalogue the request handler writes to and reads from
    (`transport::TransportCatalogue`). Its storage and search code is not
    part of this model; this class stands in for it with three maps and
    the log of every distance registration, and its members state the
    behaviour the handler relies on. */
module Catalogue {
  import opened Wrappers

  /** A stop as the catalogue stores it. Coordinates are not modelled. */
  datatype Stop = Stop(name: string)

  /** A bus as `RequestHandler::AddBus` builds it: the expanded traversal
      as stop references (`None` for a null `StopPtr`), the number of
      distinct stops and the accumulated declared length. The geographic
      length is not modelled. */
  datatype Bus = Bus(name: string, route: seq<Option<Stop>>, uniqueStops: int, actualLength: int)

  /** One call of the catalogue's `SetDistanceBetweenStops(from, to, distance)`. */
  datatype DistanceRecord = DistanceRecord(from: string, to: string, distance: int)

  /** `distances` after the records have been written in order. */
  function ApplyRecords(distances: map<(string, string), int>, records: seq<DistanceRecord>): map<(string, string), int>
    decreases |records|
  {
    if records == [] then distances
    else
      var r := records[|records| - 1];
      ApplyRecords(distances, records[..|records| - 1])[(r.from, r.to) := r.distance]
  }

  /** Every stop is filed under its own name. */
  predicate SelfNamed(stops: map<string, Stop>)
  {
    forall name :: name in stops ==> stops[name].name == name
  }

  class TransportCatalogue {
    /** Stops by name. */
    var stops: map<string, Stop>
    /** Declared distances, by ordered pair of stop names. */
    var distances: map<(string, string), int>
    /** Buses by name. */
    var buses: map<string, Bus>
    /** Every `SetDistanceBetweenStops` call, oldest first. */
    ghost var distanceLog: seq<DistanceRecord>

    /** Every stop is filed under its own name. */
    ghost predicate Valid()
      reads this
    {
      SelfNamed(stops)
    }

    constructor ()
      ensures Valid()
      ensures stops == map[] && distances == map[] && buses == map[] && distanceLog == []
    {
      stops, distances, buses := map[], map[], map[];
      distanceLog := [];
    }

    method AddStop(stop: Stop)
      requires Valid()
      modifies this
      ensures Valid()
      ensures stops == old(stops)[stop.name := stop]
      ensures distances == old(distances) && buses == old(buses) && distanceLog == old(distanceLog)
    {
      stops := stops[stop.name := stop];
    }

    method AddBus(bus: Bus)
      modifies this
      ensures buses == old(buses)[bus.name := bus]
      ensures stops == old(stops) && distances == old(distances) && distanceLog == old(distanceLog)
    {
      buses := buses[bus.name := bus];
    }

    method SetDistanceBetweenStops(from: string, to: string, distance: int)
      modifies this
      ensures distances == old(distances)[(from, to) := distance]
      ensures distanceLog == old(distanceLog) + [DistanceRecord(from, to, distance)]
      ensures stops == old(stops) && buses == old(buses)
    {
      distances := distances[(from, to) := distance];
      distanceLog := distanceLog + [DistanceRecord(from, to, distance)];
    }

    function SearchStop(name: string): Option<Stop>
      reads this
    {
      if name in stops then Some(stops[name]) else None
    }

    function SearchBus(name: string): Option<Bus>
      reads this
    {
      if name in buses then Some(buses[name]) else None
    }

    /** The declared distance in the direction `from` to `to` only. */
    function GetActualDistanceBetweenStops(from: string, to: string): Option<int>
      reads this
    {
      if (from, to) in distances then Some(distances[(from, to)]) else None
    }
  }
}
