/** `request_handler::RequestHandler`: the orchestrator that parses text
    commands, assembles routes and hands the results to the catalogue, and
    answers bus-statistics queries from what the catalogue stored. */
module RequestHandling {
  import opened Wrappers
  import opened Catalogue
  import opened QueryParsing
  import opened Stoi
  import opened DistanceClauses
  import opened RouteAssembly

  /** `domain::BusStat` without the curvature: the bus name as queried, the
      number of entries of the expanded traversal, the number of distinct
      stops and the declared length. */
  datatype BusStat = BusStat(name: string, stopCount: int, uniqueStops: int, routeLength: int)

  class RequestHandler {
    /** The catalogue the handler was constructed with (`db_`). */
    const db: TransportCatalogue

    constructor (db: TransportCatalogue)
      ensures this.db == db
    {
      this.db := db;
    }

    /** `AddBus(raw_query)`: tokenize, assemble the traversal, sum its
        declared length, and store the bus under its name. */
    method AddBus(raw: string)
      requires db.Valid() && BusQueryValid(db.stops, raw)
      modifies db
      ensures db.Valid()
      ensures db.buses == old(db.buses)[Words(raw)[0] := AssembleBus(old(db.stops), old(db.distances), raw)]
      ensures db.stops == old(db.stops) && db.distances == old(db.distances)
      ensures db.distanceLog == old(db.distanceLog)
      ensures var stored := db.buses[Words(raw)[0]].route;
        forall i :: 0 <= i < |stored| ==> stored[i].Some? && stored[i].value.name in db.stops
      ensures var route := Traversal(db.stops, Words(raw), RouteSeparator(raw));
        GetBusStat(Words(raw)[0])
          == Some(BusStat(Words(raw)[0], |route|, UniqueStops(Words(raw)), RouteLength(db.distances, route)))
    {
      var words, separatorIfSet := SplitIntoWordsBySeparator(raw);
      // The source reads its separator variable even when no separator set
      // it; any value may come out, and for such a route any value gives
      // the same traversal.
      assert separatorIfSet.Some? ==> RouteSeparator(raw) == separatorIfSet.value;
      var separator: SeparatorType :| separatorIfSet.Some? ==> separator == separatorIfSet.value;
      if separatorIfSet.None? {
        TraversalOfOneStop(db.stops, words, separator, RouteSeparator(raw));
      }
      WordsShape(raw);
      var route, uniqueStops := WordsToRoute(words, separator);
      TraversalShape(db.stops, words, separator);
      var actual := ComputeRouteLengths(route);
      var stopRefs := StopsToStopPtr(route);
      db.AddBus(Bus(words[0], stopRefs, uniqueStops, actual));
      AssembledBusStops(db.stops, db.distances, raw);
    }

    /** `SetDistanceBetweenStops(raw_query)`: one registration per clause,
        in order, from the stop the query names. */
    method SetDistanceBetweenStops(raw: string)
      requires DistanceQueryValid(raw)
      modifies db
      ensures db.distanceLog == old(db.distanceLog) + DistanceRecords(raw)
      ensures db.distances == ApplyRecords(old(db.distances), DistanceRecords(raw))
      ensures db.stops == old(db.stops) && db.buses == old(db.buses)
    {
      var parts, unusedSeparator := SplitIntoWordsBySeparator(raw);
      var from := parts[0];
      ghost var clauses := Clauses(parts);
      assert AllClausesValid(clauses);
      ghost var records := Registrations(from, clauses);
      assert records == DistanceRecords(raw);
      ghost var oldLog := db.distanceLog;
      ghost var oldDistances := db.distances;
      var i := 3;
      while i < |parts|
        invariant 3 <= i && i - 3 <= |clauses|
        invariant AllClausesValid(clauses[..i - 3])
        invariant db.distanceLog == oldLog + Registrations(from, clauses[..i - 3])
        invariant db.distances == ApplyRecords(oldDistances, Registrations(from, clauses[..i - 3]))
        invariant db.stops == old(db.stops) && db.buses == old(db.buses)
      {
        ghost var clause := clauses[i - 3];
        assert parts[i] == clause;
        RegistrationStateStep(from, clauses, i - 3, oldLog, oldDistances, db.distanceLog, db.distances);
        var lengthAndStop := SplitIntoLengthStop(parts[i]);
        var distance := StoI(DropUnit(lengthAndStop.0)).value;
        assert DistanceRecord(from, lengthAndStop.1, distance) == ParseClause(from, clause);
        db.SetDistanceBetweenStops(from, lengthAndStop.1, distance);
        i := i + 1;
      }
      assert clauses[..i - 3] == clauses;
      assert db.distanceLog == oldLog + records;
    }

    /** `GetBusStat`: nothing for an unknown bus; otherwise the queried name,
        the number of entries of the stored traversal, and the stored
        unique-stop count and declared length, unchanged. */
    function GetBusStat(busName: string): (r: Option<BusStat>)
      reads db
      ensures r.None? <==> busName !in db.buses
      ensures r.Some? ==> r.value.name == busName && r.value.stopCount == |db.buses[busName].route|
      ensures r.Some? ==> r.value.uniqueStops == db.buses[busName].uniqueStops
      ensures r.Some? ==> r.value.routeLength == db.buses[busName].actualLength
    {
      match db.SearchBus(busName)
      case None => None
      case Some(bus) => Some(BusStat(busName, |bus.route|, bus.uniqueStops, bus.actualLength))
    }

    /** `WordsToRoute`: the traversal for the stop words after the bus name,
        and the number of distinct stop words. */
    method WordsToRoute(words: seq<string>, separator: SeparatorType) returns (route: seq<string>, uniqueStops: nat)
      requires |words| >= 1 && AllResolve(db.stops, words[1..])
      ensures route == Traversal(db.stops, words, separator)
      ensures uniqueStops == UniqueStops(words)
    {
      route := [];
      var uniqueNames: set<string> := {};
      ForwardStart(db.stops, words);
      var i := 1;
      while i < |words|
        invariant ForwardRead(db.stops, words, i, route, uniqueNames)
      {
        ForwardStep(db.stops, words, i, route, uniqueNames);
        var stop := db.SearchStop(words[i]);
        route := route + [stop.value.name];
        uniqueNames := uniqueNames + {words[i]};
        i := i + 1;
      }
      ForwardEnd(db.stops, words, route, uniqueNames);
      if separator == DASH {
        route := AppendReturnLegs(words, route);
      }
      uniqueStops := |uniqueNames|;
    }

    /** The second loop of `WordsToRoute`, for a there-and-back route: the
        names of stop words |words| - 2 down to 1 appended to the forward
        route. */
    method AppendReturnLegs(words: seq<string>, forward: seq<string>) returns (route: seq<string>)
      requires |words| >= 1 && AllResolve(db.stops, words[1..])
      requires forward == CanonicalNames(db.stops, words[1..])
      ensures route == Traversal(db.stops, words, DASH)
    {
      route := forward;
      BackStart(forward);
      var k: int := |words| - 2;
      while k >= 1
        invariant BackRead(forward, k, route)
      {
        BackStep(db.stops, words, k, route);
        var stop := db.SearchStop(words[k]);
        route := route + [stop.value.name];
        k := k - 1;
      }
      BackEnd(db.stops, words, k, route);
    }

    /** `ComputeRouteLengths`, its declared-distance sum: the legs between
        consecutive stops, in the direction travelled, a missing declared
        distance counting as 0. */
    method ComputeRouteLengths(route: seq<string>) returns (actual: int)
      requires |route| >= 1
      ensures actual == RouteLength(db.distances, route)
    {
      actual := 0;
      var prev := route[0];
      var i := 1;
      while i < |route|
        invariant 1 <= i <= |route|
        invariant prev == route[i - 1]
        invariant actual == RouteLength(db.distances, route[..i])
      {
        var cur := route[i];
        assert route[..i + 1][..i] == route[..i];
        var declared := db.GetActualDistanceBetweenStops(prev, cur);
        actual := actual + (if declared.Some? then declared.value else 0);
        prev := cur;
        i := i + 1;
      }
      assert route[..i] == route;
    }

    /** `StopsToStopPtr`: the catalogue's stop for each name, in order. */
    method StopsToStopPtr(names: seq<string>) returns (result: seq<Option<Stop>>)
      ensures result == StopRefs(db.stops, names)
    {
      result := [];
      var i := 0;
      while i < |names|
        invariant 0 <= i <= |names|
        invariant result == StopRefs(db.stops, names[..i])
      {
        assert names[..i + 1][..i] == names[..i];
        result := result + [db.SearchStop(names[i])];
        i := i + 1;
      }
      assert names[..i] == names;
    }
  }
}
