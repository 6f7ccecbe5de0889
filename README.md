# Request handler of the transport catalogue, in Dafny

The transport catalogue stores bus stops, the road distances declared
between them, and bus routes over those stops. Text commands reach it
through `request_handler::RequestHandler`:

- `Stop <name>: <lat>, <lng>, <d1>m to <stop1>, ...` declares the stop's
  coordinates and its distances to other stops.
- `Bus <name>: <s1> > <s2> > ... > <s1>` declares a circular route.
- `Bus <name>: <s1> - <s2> - ... - <sn>` declares a there-and-back route,
  which runs `s1 … sn` and then back to `s1`.
- A bus query asks for the route's statistics: how many stops it runs, how
  many distinct ones, and its length in declared distances.

This project models the handler's text front end and route assembly:

- `QueryGetName` reads the name out of a query.
- `SplitIntoWordsBySeparator` cuts a query into words.
- `SplitIntoLengthStop` cuts one distance clause in two.
- `SetDistanceBetweenStops(raw)` registers the declared distances of a
  stop query.
- `WordsToRoute` expands the stop words into the traversal. A
  there-and-back route is mirrored.
- `ComputeRouteLengths` sums the declared distance of every leg.
- `StopsToStopPtr` resolves names to stops.
- `AddBus(raw)` assembles and stores a bus.
- `GetBusStat` reports the statistics of a stored bus.

The model is written in the source's own form:

- The tokenizer and `SplitIntoLengthStop` become functions with
  characterising contracts. The scanning loop of
  `SplitIntoWordsBySeparator` becomes a method proved against them.
- The handler becomes a class over a catalogue object. Each loop of the
  source (`SetDistanceBetweenStops`, `WordsToRoute`, `ComputeRouteLengths`,
  `StopsToStopPtr`) becomes a method with loop invariants. Each method is
  proved equal to a specification function: `DistanceRecords`,
  `Traversal`/`UniqueStops`, `RouteLength`, `StopRefs`.
- Lemmas state what those functions mean:
  - query round trips: a query written in the input language reads back to
    the name, stops and distances it was written from;
  - the shape of a there-and-back traversal: `2n - 1` entries, a
    palindrome;
  - the length of a traversal: circular, and there-and-back as the sum of
    both directions;
  - the bounds of the distinct-stop count, and what `stoi` reads;
  - which distance wins when the same pair is declared twice.

The C++ behaviour is modelled as written:

- The unsigned wrap-arounds are kept:
  - `npos + 1 == 0`: a query without a space is read from its start;
  - `npos + 4 == 3`: a clause without a space loses its first three
    characters;
  - `substr(1, size - 2)` of a one-character word is empty.
- A Dafny `char` stands for one byte of the source's `std::string`. Every
  cut the source makes by position (`substr(1, …)`, `substr(pos + 4)`) is
  a cut by byte, and the model makes the same cut. So an unpadded word
  that starts with a multi-byte character loses its first byte in both.
- `std::stoi`, `std::out_of_range` and the dereference of a null stop
  pointer become preconditions (`Splittable`, `ClauseValid`,
  `BusQueryValid`). `Splittable` and `ClauseValid` are stated exactly on
  the inputs where the source does not throw.
- `BusQueryValid` also requires that every stop word resolves, and that
  the separator is set unless the route has at most one stop.
- The separator variable of `SplitIntoWordsBySeparator` is left
  uninitialised when no separator was scanned. It is `None` in the model.
  - For a `Bus` query this happens only when the route has one stop
    (`BusQuerySeparator`). `AddBus` then picks an arbitrary kind, and
    `TraversalOfOneStop` shows that every kind gives the same traversal.
  - A query of another kind with several stop words would make the
    source's `AddBus` read the uninitialised variable for a longer route.
    `BusQueryValid` rules such a query out.
- Inside a bus query, a `-` in a stop name is a splitting character like
  the separators. It cuts the name in two. When it is the last splitting
  character, it also makes the route there-and-back.
  `HyphenInStopName` shows that `Bus X: A > B-2` reads as the stops `A`,
  `` and `` with the separator `-`.
- The distances are read in the direction travelled, and a missing one
  counts as 0. A bus's length is computed when the bus is added, from the
  distances declared by then.

The catalogue (`transport_catalogue.cpp`) is not part of this model. The
class `Catalogue.TransportCatalogue` stands in for it with:

- maps of stops, buses and declared distances;
- a ghost log of every distance registration.

Its members state only what the handler relies on.

`Scenarios` calls the handler on written queries and proves what it
reports. It adds three stops to the catalogue directly and declares three
distances through stop queries. It then adds a circular and a
there-and-back bus through bus queries, and proves that their statistics
are 4 stops / 3 distinct / 30 m and 5 stops / 3 distinct / 20 m.

## Model

| member | source | states |
|---|---|---|
| QueryParsing.NameStart | request_handler.cpp:189 | reading starts one past the first space, or at 0 when there is no space (the `npos + 1` wrap-around) |
| QueryParsing.QueryGetName | request_handler.cpp:188-197 | the name is the text from the start position up to the first colon, and the position returned is just past that colon; when no colon follows, the name is the rest of the text and the position is npos; the name never contains a colon |
| QueryParsing.SplitIntoWordsBySeparator | request_handler.cpp:207-231 | the scanning loop returns exactly `Words(str)` and `Separator(str)`: the name, each segment between splitting characters trimmed, and the kind of the last bus separator scanned |
| QueryParsing.WordsShape | request_handler.cpp:211-228 | there are two more words than splitting characters after the colon; the first word is the name `QueryGetName` reads; every inner word is its segment trimmed by the rule of its query kind; the last word is the final segment without its first character |
| QueryParsing.SegmentsCount | request_handler.cpp:216-227 | the text after the colon cuts into one more segment than it has splitting characters |
| QueryParsing.LastSeparatorFacts | request_handler.cpp:209-218 | the separator is never `NO_HAVE`; it is unset exactly when the query is not a bus query or has no `>`/`-`; otherwise it is the kind of the last `>` or `-` in the text |
| QueryParsing.BusQuerySeparator | request_handler.cpp:209-218 | a bus query leaves the separator unset only when it names a single stop |
| QueryParsing.SplitIntoLengthStop | request_handler.cpp:199-205 | the length is the longest space-free prefix; the stop name starts four characters past that space, or at index 3 when there is no space (`npos + 4`) |
| QueryParsing.BusQueryRoundTrip | request_handler.cpp:207-231 | a bus query written as `Bus <name>: s1 > s2 > …` (or with `-`) splits back into the name and exactly those stops, with that separator kind |
| QueryParsing.StopQueryRoundTrip | request_handler.cpp:207-231 | a stop query written as `Stop <name>: i1, i2, …` splits back into the name and exactly those items, with no separator kind |
| Stoi.StoIDecimal | request_handler.cpp:55 | `std::stoi` reads the decimal writing of any n up to `INT_MAX` back as n, whatever non-digit text follows |
| Stoi.StoINegative | request_handler.cpp:55 | `std::stoi` reads `-` followed by the decimal writing of n, for n up to 2^31, as -n |
| DistanceClauses.ClauseRoundTrip | request_handler.cpp:54-55 | a clause written as `<d><unit> to <stop>` is readable and registers exactly distance d to that stop |
| DistanceClauses.DistanceRecordsShape | request_handler.cpp:50-59 | a stop query makes one registration per word from the fourth on, in order; each goes from the query's stop to the clause's stop, with the `stoi` of the clause's length minus its unit |
| DistanceClauses.DistanceQueryRoundTrip | request_handler.cpp:50-59 | a stop query written with coordinates and the clauses `d_j m to t_j` is readable and registers exactly (name, t_j, d_j) for each j, in order |
| DistanceClauses.ApplyRecordsUntouched | request_handler.cpp:57 | a pair of stops that no registration names keeps the distance it had before |
| DistanceClauses.ApplyRecordsLastWins | request_handler.cpp:57 | a pair ends with the distance of the last registration that names it |
| RouteAssembly.TraversalShape | request_handler.cpp:238-250 | the first n entries of the traversal are the catalogue names of the n stop words, in order; a circular route has just those; a there-and-back route has 2n - 1 entries, runs back through the stop words in reverse, reads the same backwards and ends where it starts |
| RouteAssembly.ThereAndBackShape | request_handler.cpp:244-250 | the forward route followed by its reverse without the last stop has 2n - 1 entries, starts with the forward route, and is a palindrome |
| RouteAssembly.UniqueStopsBounds | request_handler.cpp:235-254 | the distinct-stop count is at most the number of stop words, at least 1 when there is a stop, and equal to the number of stop words exactly when no stop word repeats |
| RouteAssembly.UniqueStopsOfTraversal | request_handler.cpp:238-254 | the distinct-stop count equals the number of distinct stops the expanded traversal visits, so mirroring a route adds no new stop |
| RouteAssembly.TraversalOfOneStop | request_handler.cpp:209-218 | for a route of at most one stop, every separator kind gives the same traversal, so reading the unset separator changes nothing |
| RouteAssembly.RouteLengthSplit | request_handler.cpp:114-132 | the route length is the length up to any stop plus the length from that stop on |
| RouteAssembly.RouteLengthThereAndBack | request_handler.cpp:114-132 | a there-and-back route measures its forward route plus the forward route reversed |
| RouteAssembly.RouteLengthReverse | request_handler.cpp:114-132 | when every distance is declared the same both ways, a route measures the same in reverse |
| RouteAssembly.DirectionalLengths | request_handler.cpp:125-126 | a distance declared from a to b counts for the leg a→b but not for the leg b→a |
| RouteAssembly.RouteLengthNonNegative | request_handler.cpp:114-132 | with no negative declared distance, a route length is never negative |
| RouteAssembly.AssembledBusStops | request_handler.cpp:16-29 | every stop reference of an added bus is set and names a known stop; its unique-stop count is the number of distinct stops it visits, at most its number of stop words |
| RouteAssembly.AssembledBusLength | request_handler.cpp:16-29 | an added bus runs n stops (circular) or 2n - 1 (there and back); a there-and-back bus measures both directions over its stop words |
| RequestHandling.RequestHandler.AddBus | request_handler.cpp:16-29 | only the bus table changes, by the assembled bus under its name; every stop reference of the stored bus is set and names a known stop; the bus statistics then report its traversal's size, its distinct stops and its length in declared distances |
| Scenarios.HyphenInStopName | request_handler.cpp:217-228 | in `Bus X: A > B-2` the `-` inside the name `B-2` splits it, so the query reads as the stops `A`, `` and `` with the separator `-` |
| RequestHandling.RequestHandler.SetDistanceBetweenStops | request_handler.cpp:50-59 | the catalogue receives exactly `DistanceRecords(raw)`, in order; the distance map is the old one with those records written in turn; stops and buses are unchanged |
| RequestHandling.RequestHandler.GetBusStat | request_handler.cpp:81-94 | nothing exactly for an unknown bus; otherwise the queried name, the size of the stored traversal, and the stored unique-stop count and length |
| RequestHandling.RequestHandler.WordsToRoute | request_handler.cpp:233-256 | the route built is `Traversal(words, separator)` and the count is the number of distinct stop words |
| RequestHandling.RequestHandler.AppendReturnLegs | request_handler.cpp:244-250 | appending the stops from the second-to-last back to the first completes the there-and-back traversal |
| RequestHandling.RequestHandler.ComputeRouteLengths | request_handler.cpp:114-132 | the sum over consecutive legs, in the direction travelled, with a missing declared distance counting as 0, is `RouteLength` |
| RequestHandling.RequestHandler.StopsToStopPtr | request_handler.cpp:134-142 | one catalogue lookup per name, in order: the stop when the name is known, a null reference otherwise |
| Scenarios.Setup | request_handler.cpp:50-59 | three stop queries declaring A→B, B→C and C→A as 10 m leave exactly those three distances in the catalogue |
| Scenarios.CircularBusRun | request_handler.cpp:16-29 | the query `Bus X: A > B > C > A` is reported as 4 stops, 3 distinct, 30 m |
| Scenarios.ThereAndBackBusRun | request_handler.cpp:233-256 | the query `Bus Y: A - B - C` is reported as 5 stops, 3 distinct, 20 m, because nothing is declared for C→B or B→A |

## Left out

- RequestHandling.RequestHandler.ComputeRouteLengths: the geographic
  (great-circle) sum is not modelled, because it is floating point over the
  coordinates. The declared sum is an unbounded integer; the source's
  32-bit `int` overflow on very long routes is not modelled.
- RequestHandling.RequestHandler.GetBusStat: the curvature (the declared
  length divided by the geographic length) is omitted with the geographic
  length. The stop count is the unbounded route size, not its
  `static_cast<int>` (request_handler.cpp:89).
- RequestHandling.RequestHandler.WordsToRoute: the distinct-stop count is
  the unbounded size of the set, not its `(int)` cast
  (request_handler.cpp:254).
- RequestHandling.RequestHandler.AddBus: a query that does not start with
  `B` but has several stop words makes the source read an uninitialised
  separator. This behaviour is undefined, so the precondition
  `BusQueryValid` excludes such a query and the model promises nothing
  for it. The precondition `db.Valid()` (every stop filed under its own
  name) is kept by the catalogue's `AddStop`; it is what makes every
  stored stop reference name a known stop.
- RequestHandling.RequestHandler.AddBus: the source throws, or dereferences
  a null stop pointer, on a query with an empty segment (no character
  between the colon or a splitting character and the next splitting
  character or the end) or an unknown stop. A segment of padding only is
  not empty: it gives an empty word without any exception.
  These are preconditions of the model, not an error result.
- RequestHandling.RequestHandler.SetDistanceBetweenStops: a clause that
  cannot be cut or that `std::stoi` rejects makes the source throw. This
  is a precondition of the model.
- `AddStop(raw_query)` (request_handler.cpp:35-44) is not modelled, because
  it reads coordinates with `std::stod` (floating point). The scenarios add
  stops to the catalogue directly.
- `GetStopStat` and `GetBusesByStop` (request_handler.cpp:96-112) are not
  modelled: they only pass on the catalogue's buses-through-a-stop index,
  which belongs to the catalogue.
- The one-line catalogue pass-throughs (request_handler.cpp:31-33, 46-48,
  61-79, 144-146) are not modelled. The model's catalogue class states the
  behaviour of the catalogue calls that the modelled members make.
- The map-rendering and routing members (request_handler.cpp:148-186) are
  not modelled: they forward to the renderer and the router, which are
  not part of this model.
- The catalogue's storage, hashing and `string_view` lifetimes are not
  modelled: `transport_catalogue.cpp` is not part of this model.
- Several behaviours of the catalogue are assumed, not derived from its
  code:
  - a repeated `SetDistanceBetweenStops` for the same ordered pair
    overwrites the earlier distance;
  - `GetActualDistanceBetweenStops` looks up only the exact ordered pair,
    with no fallback to the reverse pair;
  - `AddBus` and `AddStop` for a name the catalogue already holds replace
    the earlier entry;
  - distances are keyed by the pair of stop names, not by stop objects.
  `DirectionalLengths`, `ApplyRecordsLastWins`, `ApplyRecordsUntouched` and
  the 20 m of `ThereAndBackBusRun` hold under these assumptions.
- The second loop of `WordsToRoute` is a separate method,
  `AppendReturnLegs`, that `WordsToRoute` calls. The behaviour is the same.
- The `reserve` calls of the source only affect capacity, so they are not
  modelled.
- The declarations in request_handler.h are the same operations as above.
  Only `SeparatorType` is modelled from them.
