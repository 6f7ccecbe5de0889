/** The handler called on written queries, with the statistics it reports
    proved: three stops `A`, `B`, `C` added to the catalogue, the distances
    A→B, B→C and C→A of 10 metres each declared through stop queries, then
    a circular and a there-and-back bus over them. */
module Scenarios {
  import opened Wrappers
  import opened Text
  import opened Catalogue
  import opened QueryParsing
  import opened DistanceClauses
  import opened RouteAssembly
  import opened RequestHandling
  import opened Stoi

  /** The stops of the scenarios, each filed under its own name. */
  function ThreeStops(): map<string, Stop>
  {
    map["A" := Stop("A"), "B" := Stop("B"), "C" := Stop("C")]
  }

  /** The distances the scenarios declare. */
  function ThreeDistances(): map<(string, string), int>
  {
    map[("A", "B") := 10, ("B", "C") := 10, ("C", "A") := 10]
  }

  /** `Stop <name>: 0, 0, <distance>m to <to>`. */
  function OneDistanceQuery(name: string, distance: nat, to: string): string
  {
    StopQuery(name, ["0", "0", FormatClause(distance, 'm', to)])
  }

  /** A stop query with one clause registers exactly that one distance. */
  lemma OneDistanceQueryRecords(name: string, distance: nat, to: string)
    requires ':' !in name && ',' !in to && distance <= 2147483647
    ensures DistanceQueryValid(OneDistanceQuery(name, distance, to))
    ensures DistanceRecords(OneDistanceQuery(name, distance, to)) == [DistanceRecord(name, to, distance)]
  {
    DistanceQueryRoundTrip(name, "0", "0", [distance], [to]);
    assert WrittenClauses([distance], [to]) == [FormatClause(distance, 'm', to)];
    assert ["0", "0"] + [FormatClause(distance, 'm', to)] == ["0", "0", FormatClause(distance, 'm', to)];
    assert Declared(name, [distance], [to]) == [DistanceRecord(name, to, distance)];
  }

  /** Sends the handler the stop query that declares one distance. */
  method DeclareDistance(handler: RequestHandler, name: string, distance: nat, to: string)
    requires ':' !in name && ',' !in to && distance <= INT_MAX
    modifies handler.db
    ensures handler.db.distances == old(handler.db.distances)[(name, to) := distance]
    ensures handler.db.stops == old(handler.db.stops) && handler.db.buses == old(handler.db.buses)
  {
    OneDistanceQueryRecords(name, distance, to);
    handler.SetDistanceBetweenStops(OneDistanceQuery(name, distance, to));
  }

  /** Builds the catalogue of the scenarios: the stops added directly, then
      one stop query per declared distance sent through the handler. */
  method Setup() returns (handler: RequestHandler)
    ensures fresh(handler) && fresh(handler.db)
    ensures handler.db.Valid()
    ensures handler.db.stops == ThreeStops()
    ensures handler.db.distances == ThreeDistances()
    ensures handler.db.buses == map[]
  {
    var db := new TransportCatalogue();
    db.AddStop(Stop("A"));
    db.AddStop(Stop("B"));
    db.AddStop(Stop("C"));
    handler := new RequestHandler(db);
    DeclareDistance(handler, "A", 10, "B");
    DeclareDistance(handler, "B", 10, "C");
    DeclareDistance(handler, "C", 10, "A");
  }

  lemma ThreeStopsResolve(names: seq<string>)
    requires forall j :: 0 <= j < |names| ==> names[j] in ["A", "B", "C"]
    ensures AllResolve(ThreeStops(), names) && SelfNamed(ThreeStops())
    ensures CanonicalNames(ThreeStops(), names) == names
  {
    UniqueStopsOfTraversal(ThreeStops(), [""] + names, GREATER_THAN);
    assert ([""] + names)[1..] == names;
  }

  /** What `AddBus` computes for a bus query over stops of the scenarios. */
  predicate Assembles(raw: string, name: string, stopCount: int, uniqueStops: int, length: int)
  {
    BusQueryValid(ThreeStops(), raw) && Words(raw)[0] == name &&
    var route := Traversal(ThreeStops(), Words(raw), RouteSeparator(raw));
    |route| == stopCount && UniqueStops(Words(raw)) == uniqueStops &&
    RouteLength(ThreeDistances(), route) == length
  }

  /** A, B, C, A measures 10 + 10 + 10 metres. */
  lemma CircularLength()
    ensures RouteLength(ThreeDistances(), ["A", "B", "C", "A"]) == 30
  {
    var route := ["A", "B", "C", "A"];
    assert RouteLength(ThreeDistances(), route[..2]) == 10;
    assert RouteLength(ThreeDistances(), route[..3]) == 20 by {
      assert route[..3][..2] == route[..2];
    }
    assert route[..3] == route[..|route| - 1];
  }

  /** A, B, C, B, A measures 10 + 10 + 0 + 0 metres: nothing is declared
      from C to B or from B to A. */
  lemma ThereAndBackLength()
    ensures RouteLength(ThreeDistances(), ["A", "B", "C", "B", "A"]) == 20
  {
    var route := ["A", "B", "C", "B", "A"];
    assert "A" != "B" && "B" != "C" && "A" != "C";
    assert RouteLength(ThreeDistances(), route[..2]) == 10;
    assert RouteLength(ThreeDistances(), route[..3]) == 20 by {
      assert route[..3][..2] == route[..2];
    }
    assert RouteLength(ThreeDistances(), route[..4]) == 20 by {
      assert route[..4][..3] == route[..3];
    }
    assert route[..4] == route[..|route| - 1];
  }

  /** Bus words whose stops are A, B, C, A, read with `>`, run those
      stops as written. */
  lemma CircularTraversal(words: seq<string>)
    requires |words| >= 1 && words[1..] == ["A", "B", "C", "A"]
    ensures AllResolve(ThreeStops(), words[1..])
    ensures Traversal(ThreeStops(), words, GREATER_THAN) == ["A", "B", "C", "A"]
  {
    ThreeStopsResolve(words[1..]);
  }

  lemma ReversePair<T>(a: T, b: T)
    ensures Reverse([a, b]) == [b, a]
  {
    assert [a, b][1..] == [b];
    assert Reverse([b]) == [b] by {
      assert [b][1..] == [];
    }
  }

  /** Bus words whose stops are A, B, C, read with `-`, run A, B, C, B, A. */
  lemma ThereAndBackTraversal(words: seq<string>)
    requires |words| >= 1 && words[1..] == ["A", "B", "C"]
    ensures AllResolve(ThreeStops(), words[1..])
    ensures Traversal(ThreeStops(), words, DASH) == ["A", "B", "C", "B", "A"]
  {
    var stops := words[1..];
    ThreeStopsResolve(stops);
    assert stops[..2] == ["A", "B"];
    ReversePair("A", "B");
    assert ThereAndBack(stops) == stops + ["B", "A"];
  }

  /** The stops of either bus are three distinct ones. */
  lemma ThreeDistinct(words: seq<string>)
    requires |words| >= 1
    requires words[1..] == ["A", "B", "C"] || words[1..] == ["A", "B", "C", "A"]
    ensures UniqueStops(words) == 3
  {
    assert "A" != "B" && "B" != "C" && "A" != "C";
    assert Elements(words[1..]) == {"A", "B", "C"};
  }

  /** The stop words after the bus name, for words read as `name` then `stops`. */
  lemma StopWords(words: seq<string>, name: string, stops: seq<string>)
    requires words == [name] + stops
    ensures |words| >= 1 && words[0] == name && words[1..] == stops
  {
  }

  /** A query read as bus `X` over A, B, C, A with `>` visits its four
      stops as written, three of them distinct, over 10 + 10 + 10 metres. */
  lemma CircularRouteAssembles(raw: string, stops: seq<string>)
    requires stops == ["A", "B", "C", "A"]
    requires Splittable(raw) && Words(raw) == ["X"] + stops
    requires Separator(raw) == Some(GREATER_THAN)
    ensures Assembles(raw, "X", 4, 3, 30)
  {
    StopWords(Words(raw), "X", stops);
    CircularTraversal(Words(raw));
    ThreeDistinct(Words(raw));
    CircularLength();
  }

  /** A query read as bus `Y` over A, B, C with `-` visits A, B, C, B, A:
      five stops, three of them distinct, over 20 metres. */
  lemma ThereAndBackRouteAssembles(raw: string, stops: seq<string>)
    requires stops == ["A", "B", "C"]
    requires Splittable(raw) && Words(raw) == ["Y"] + stops
    requires Separator(raw) == Some(DASH)
    ensures Assembles(raw, "Y", 5, 3, 20)
  {
    StopWords(Words(raw), "Y", stops);
    ThereAndBackTraversal(Words(raw));
    ThreeDistinct(Words(raw));
    ThereAndBackLength();
  }

  /** Text of three plain pieces, the first two ended by `>` and `-`: the
      first two are finished words, the third is being read, and the last
      separator kind is `DASH`. */
  lemma ArrowThenDashScan(a: string, b: string, c: string)
    requires NoSplits('B', a) && NoSplits('B', b) && NoSplits('B', c)
    ensures Done('B', a + ['>'] + b + ['-'] + c) == [a, b]
    ensures Pending('B', a + ['>'] + b + ['-'] + c) == c
    ensures LastSeparator('B', a + ['>'] + b + ['-'] + c) == Some(DASH)
  {
    var first := a + ['>'] + b;
    ScanOfPlain('B', a);
    ScanSplitThenPlain('B', a, '>', b);
    ScanSplitThenPlain('B', first, '-', c);
    LastSeparatorAppendPlain('B', first + ['-'], c);
    assert (first + ['-'])[|first + ['-']| - 1] == '-';
  }

  /** A bus query whose body is three plain pieces, the first two ended by
      `>` and `-`, reads as the name, the first two pieces with both ends
      trimmed, and the third without its first character, with `-`. */
  lemma ArrowThenDashWords(raw: string, keyword: string, name: string, a: string, b: string, c: string)
    requires |keyword| >= 1 && keyword[0] == 'B' && ' ' !in keyword && ':' !in name
    requires |a| >= 1 && |b| >= 1 && |c| >= 1
    requires NoSplits('B', a) && NoSplits('B', b) && NoSplits('B', c)
    requires raw == FormatQuery(keyword, name, a + ['>'] + b + ['-'] + c)
    ensures Splittable(raw)
    ensures Words(raw) == [name, TrimBoth(a), TrimBoth(b), c[1..]]
    ensures Separator(raw) == Some(DASH)
  {
    var body := a + ['>'] + b + ['-'] + c;
    QueryOfFormat(keyword, name, body);
    ArrowThenDashScan(a, b, c);
    TwoFinishedWords(raw, name, body, a, b, c);
  }

  /** The words of a bus query whose body scans as two finished pieces and
      a third being read. */
  lemma TwoFinishedWords(raw: string, name: string, body: string, a: string, b: string, c: string)
    requires Kind(raw) == 'B' && Body(raw) == body && QueryGetName(raw).0 == name
    requires Done('B', body) == [a, b] && Pending('B', body) == c
    requires |a| >= 1 && |b| >= 1 && |c| >= 1
    ensures Splittable(raw)
    ensures Words(raw) == [name, TrimBoth(a), TrimBoth(b), c[1..]]
  {
    assert Segments('B', body) == [a, b, c];
    assert TrimAll('B', [a, b]) == [TrimBoth(a), TrimBoth(b)] by {
      assert [a, b][..1] == [a];
      assert [a][..0] == [];
    }
    assert Words(raw) == [name] + TrimAll('B', [a, b]) + [c[1..]];
  }

  /** A `-` inside a stop name of a bus query splits that name, and being
      the last splitting character it makes the route there-and-back:
      `Bus X: A > B-2`, written here as its keyword, name and the pieces
      between its splitting characters, reads as stops `A`, `` and `` with
      `-`. */
  lemma HyphenInStopName(raw: string, a: string, b: string, c: string)
    requires a == " A " && b == " B" && c == "2"
    requires raw == FormatQuery("Bus", "X", a + ['>'] + b + ['-'] + c)
    ensures Splittable(raw)
    ensures Words(raw) == ["X", "A", "", ""]
    ensures Separator(raw) == Some(DASH)
  {
    assert NoSplits('B', a) && NoSplits('B', b) && NoSplits('B', c);
    assert ' ' !in "Bus" && ':' !in "X";
    ArrowThenDashWords(raw, "Bus", "X", a, b, c);
    assert TrimBoth(a) == "A" by {
      assert a[1..|a| - 1] == "A";
    }
    assert TrimBoth(b) == "" && c[1..] == "";
  }

  /** Adds the bus of `raw` to the catalogue of the scenarios and reports its
      statistics. */
  method AddBusAndReport(raw: string, name: string, stopCount: int, uniqueStops: int, length: int) returns (stat: Option<BusStat>)
    requires Assembles(raw, name, stopCount, uniqueStops, length)
    ensures stat == Some(BusStat(name, stopCount, uniqueStops, length))
  {
    var handler := Setup();
    handler.AddBus(raw);
    stat := handler.GetBusStat(name);
  }

  /** The circular bus reports 4 stops, 3 distinct, 30 metres. */
  method CircularBusRun() returns (stat: Option<BusStat>)
    ensures stat == Some(BusStat("X", 4, 3, 30))
  {
    var stops := ["A", "B", "C", "A"];
    var raw := BusQuery("X", stops, '>');
    BusQueryRoundTrip("X", stops, '>');
    CircularRouteAssembles(raw, stops);
    stat := AddBusAndReport(raw, "X", 4, 3, 30);
  }

  /** The there-and-back bus reports 5 stops, 3 distinct, 20 metres. */
  method ThereAndBackBusRun() returns (stat: Option<BusStat>)
    ensures stat == Some(BusStat("Y", 5, 3, 20))
  {
    var stops := ["A", "B", "C"];
    var raw := BusQuery("Y", stops, '-');
    BusQueryRoundTrip("Y", stops, '-');
    ThereAndBackRouteAssembles(raw, stops);
    stat := AddBusAndReport(raw, "Y", 5, 3, 20);
  }
}
