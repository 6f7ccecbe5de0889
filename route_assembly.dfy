/** Route assembly and length aggregation: turning the stop words of a bus
    query into the traversal a bus stores (`WordsToRoute`), counting its
    distinct stops, and summing declared distances along it
    (`ComputeRouteLengths`). */
module RouteAssembly {
  import opened Wrappers
  import opened Text
  import opened QueryParsing
  import opened Catalogue

  /** Every name is a stop the catalogue knows. */
  predicate AllResolve(stops: map<string, Stop>, names: seq<string>)
  {
    forall i :: 0 <= i < |names| ==> names[i] in stops
  }

  /** The names the catalogue stores for `names` (`*stop->name`), in order. */
  function CanonicalNames(stops: map<string, Stop>, names: seq<string>): (r: seq<string>)
    requires AllResolve(stops, names)
    ensures |r| == |names|
    ensures forall i :: 0 <= i < |names| ==> r[i] == stops[names[i]].name
    decreases |names|
  {
    if names == [] then []
    else CanonicalNames(stops, names[..|names| - 1]) + [stops[names[|names| - 1]].name]
  }

  /** A there-and-back route: the forward legs, then back through the
      interior stops to the first one; the far end is not repeated. */
  function ThereAndBack<T>(forward: seq<T>): seq<T>
    requires |forward| >= 1
  {
    forward + Reverse(forward[..|forward| - 1])
  }

  /** The traversal WordsToRoute builds from the words of a bus query, whose
      first word is the bus name. */
  function Traversal(stops: map<string, Stop>, words: seq<string>, separator: SeparatorType): seq<string>
    requires |words| >= 1 && AllResolve(stops, words[1..])
  {
    var forward := CanonicalNames(stops, words[1..]);
    if separator == DASH && forward != [] then ThereAndBack(forward) else forward
  }

  /** The number of distinct stop names among the words after the bus name. */
  function UniqueStops(words: seq<string>): nat
    requires |words| >= 1
  {
    |Elements(words[1..])|
  }

  /** A there-and-back route of n forward stops has 2n - 1 entries: the
      forward stops, then stops n - 1 down to 1; it reads the same
      backwards. */
  lemma ThereAndBackShape<T>(forward: seq<T>)
    requires |forward| >= 1
    ensures var route := ThereAndBack(forward);
      var n := |forward|;
      |route| == 2 * n - 1 &&
      route[..n] == forward &&
      (forall i :: n - 1 <= i < 2 * n - 1 ==> route[i] == forward[2 * n - 2 - i]) &&
      (forall i :: 0 <= i < |route| ==> route[i] == route[|route| - 1 - i])
  {
    var n := |forward|;
    var route := ThereAndBack(forward);
    var back := Reverse(forward[..n - 1]);
    assert route == forward + back;
    assert forall i :: n <= i < 2 * n - 1 ==> route[i] == back[i - n] == forward[2 * n - 2 - i];
    forall i | 0 <= i < |route| ensures route[i] == route[|route| - 1 - i] {
      if i < n {
        assert route[|route| - 1 - i] == forward[i];
      } else {
        assert route[i] == forward[2 * n - 2 - i];
      }
    }
  }

  /** The forward names are those of stop words 1 to n, in order. */
  lemma ForwardNames(stops: map<string, Stop>, words: seq<string>)
    requires |words| >= 1 && AllResolve(stops, words[1..])
    ensures var forward := CanonicalNames(stops, words[1..]);
      |forward| == |words| - 1 &&
      forall i :: 0 <= i < |words| - 1 ==> forward[i] == stops[words[i + 1]].name
  {
    var forward := CanonicalNames(stops, words[1..]);
    forall i | 0 <= i < |words| - 1 ensures forward[i] == stops[words[i + 1]].name {
      assert words[1..][i] == words[i + 1];
    }
  }

  /** The there-and-back route over n >= 1 stop words: the names of words
      1 to n, then those of words n - 1 down to 1. */
  lemma ThereAndBackNames(stops: map<string, Stop>, words: seq<string>)
    requires |words| >= 2 && AllResolve(stops, words[1..])
    ensures var route := ThereAndBack(CanonicalNames(stops, words[1..]));
      var n := |words| - 1;
      |route| == 2 * n - 1 &&
      (forall i :: 0 <= i < n ==> route[i] == stops[words[i + 1]].name) &&
      (forall i :: n - 1 <= i < 2 * n - 1 ==> route[i] == stops[words[2 * n - 1 - i]].name) &&
      (forall i :: 0 <= i < |route| ==> route[i] == route[|route| - 1 - i])
  {
    var forward := CanonicalNames(stops, words[1..]);
    ForwardNames(stops, words);
    ThereAndBackShape(forward);
  }

  /** With n stop words, every traversal starts with their canonical names
      in order. A circular (`>`) route is exactly those n names. A
      there-and-back (`-`) route has 2n - 1 entries: after the n names come
      those of words n - 1 down to 1, so it reads the same backwards and
      ends where it starts. */
  lemma TraversalShape(stops: map<string, Stop>, words: seq<string>, separator: SeparatorType)
    requires |words| >= 1 && AllResolve(stops, words[1..])
    ensures var route := Traversal(stops, words, separator);
      var n := |words| - 1;
      |route| >= n &&
      (forall i :: 0 <= i < n ==> route[i] == stops[words[i + 1]].name) &&
      (separator != DASH ==> |route| == n) &&
      (separator == DASH && n >= 1 ==>
        |route| == 2 * n - 1 &&
        (forall i :: n - 1 <= i < 2 * n - 1 ==> route[i] == stops[words[2 * n - 1 - i]].name) &&
        (forall i :: 0 <= i < |route| ==> route[i] == route[|route| - 1 - i]) &&
        route[0] == route[|route| - 1])
  {
    if separator == DASH && |words| >= 2 {
      ThereAndBackNames(stops, words);
    } else {
      ForwardNames(stops, words);
    }
  }

  // ---------------------------------------------------------------------
  // Building a traversal one stop word at a time

  /** After reading stop words 1 up to i - 1: their canonical names in
      order, and the set of those words. */
  ghost predicate ForwardRead(stops: map<string, Stop>, words: seq<string>, i: int, route: seq<string>, names: set<string>)
  {
    1 <= i <= |words| && AllResolve(stops, words[1..i]) &&
    route == CanonicalNames(stops, words[1..i]) && names == Elements(words[1..i])
  }

  lemma ForwardStart(stops: map<string, Stop>, words: seq<string>)
    requires |words| >= 1
    ensures ForwardRead(stops, words, 1, [], {})
  {
    assert words[1..1] == [];
  }

  /** Reading stop word i appends its canonical name and adds it to the set. */
  lemma ForwardStep(stops: map<string, Stop>, words: seq<string>, i: int, route: seq<string>, names: set<string>)
    requires ForwardRead(stops, words, i, route, names) && i < |words| && AllResolve(stops, words[1..])
    ensures words[i] in stops
    ensures ForwardRead(stops, words, i + 1, route + [stops[words[i]].name], names + {words[i]})
  {
    assert words[1..][i - 1] == words[i];
    var prefix := words[1..i + 1];
    assert prefix[..i - 1] == words[1..i];
    assert prefix == words[1..i] + [words[i]];
  }

  lemma ForwardEnd(stops: map<string, Stop>, words: seq<string>, route: seq<string>, names: set<string>)
    requires ForwardRead(stops, words, |words|, route, names)
    ensures AllResolve(stops, words[1..])
    ensures route == CanonicalNames(stops, words[1..]) && names == Elements(words[1..])
  {
    assert words[1..|words|] == words[1..];
  }

  /** On the way back, with stop words |forward| - 1 down to k + 1 read:
      the forward names, then the names from forward position |forward| - 2
      down to k, in that order. */
  ghost predicate BackRead<T>(forward: seq<T>, k: int, route: seq<T>)
  {
    if forward == [] then k == -1 && route == []
    else 0 <= k < |forward| && route == forward + Reverse(forward[k..|forward| - 1])
  }

  lemma BackStart<T>(forward: seq<T>)
    ensures BackRead(forward, |forward| - 1, forward)
  {
    if forward != [] {
      assert forward[|forward| - 1..|forward| - 1] == [];
      assert forward + [] == forward;
    }
  }

  /** Reading stop word k on the way back appends the canonical name at
      forward position k - 1. */
  lemma BackStep(stops: map<string, Stop>, words: seq<string>, k: int, route: seq<string>)
    requires |words| >= 1 && AllResolve(stops, words[1..])
    requires BackRead(CanonicalNames(stops, words[1..]), k, route) && k >= 1
    ensures words[k] in stops
    ensures BackRead(CanonicalNames(stops, words[1..]), k - 1, route + [stops[words[k]].name])
  {
    var forward := CanonicalNames(stops, words[1..]);
    var n := |forward|;
    assert words[1..][k - 1] == words[k];
    var back := forward[k - 1..n - 1];
    assert back[1..] == forward[k..n - 1];
    assert Reverse(back) == Reverse(forward[k..n - 1]) + [forward[k - 1]];
    assert forward + Reverse(back) == (forward + Reverse(forward[k..n - 1])) + [forward[k - 1]];
  }

  /** With every stop word read back, the route is the there-and-back traversal. */
  lemma BackEnd(stops: map<string, Stop>, words: seq<string>, k: int, route: seq<string>)
    requires |words| >= 1 && AllResolve(stops, words[1..])
    requires BackRead(CanonicalNames(stops, words[1..]), k, route) && k < 1
    ensures route == Traversal(stops, words, DASH)
  {
    var forward := CanonicalNames(stops, words[1..]);
    if forward != [] {
      assert forward[k..|forward| - 1] == forward[..|forward| - 1];
    }
  }

  /** The unique-stop count is at most the number of stop words, at least
      one when there is a stop, and equal to it exactly when no stop
      repeats. */
  lemma UniqueStopsBounds(words: seq<string>)
    requires |words| >= 1
    ensures UniqueStops(words) <= |words| - 1
    ensures |words| >= 2 ==> UniqueStops(words) >= 1
    ensures UniqueStops(words) == |words| - 1 <==> Distinct(words[1..])
  {
    ElementsCard(words[1..]);
    if |words| >= 2 {
      ElementsNonEmpty(words[1..]);
    }
  }

  /** A catalogue that files stops under their own names hands back the
      words themselves, so a traversal visits exactly the stops of its
      words, and the count taken before expansion is the number of distinct
      stops of the expanded traversal. */
  lemma UniqueStopsOfTraversal(stops: map<string, Stop>, words: seq<string>, separator: SeparatorType)
    requires |words| >= 1 && AllResolve(stops, words[1..]) && SelfNamed(stops)
    ensures CanonicalNames(stops, words[1..]) == words[1..]
    ensures Elements(Traversal(stops, words, separator)) == Elements(words[1..])
    ensures |Elements(Traversal(stops, words, separator))| == UniqueStops(words)
  {
    var forward := CanonicalNames(stops, words[1..]);
    assert forward == words[1..];
    var route := Traversal(stops, words, separator);
    if separator == DASH && forward != [] {
      var back := Reverse(forward[..|forward| - 1]);
      assert route == forward + back;
      forall x | x in back ensures x in forward {
        var i :| 0 <= i < |back| && back[i] == x;
        assert x == forward[|forward| - 2 - i];
      }
    }
  }

  // ---------------------------------------------------------------------
  // Lengths

  /** The declared distance from `from` to `to`, in that direction, or 0
      when none is declared. */
  function Leg(distances: map<(string, string), int>, from: string, to: string): int
  {
    if (from, to) in distances then distances[(from, to)] else 0
  }

  /** The declared length of a route: the legs between consecutive stops. */
  function RouteLength(distances: map<(string, string), int>, route: seq<string>): int
    decreases |route|
  {
    if |route| <= 1 then 0
    else RouteLength(distances, route[..|route| - 1]) + Leg(distances, route[|route| - 2], route[|route| - 1])
  }

  /** Cutting a route at a stop and measuring both parts, each including the
      shared stop, gives the length of the whole. */
  lemma {:induction false} RouteLengthSplit(distances: map<(string, string), int>, route: seq<string>, k: nat)
    requires k < |route|
    ensures RouteLength(distances, route) == RouteLength(distances, route[..k + 1]) + RouteLength(distances, route[k..])
    decreases |route|
  {
    var n := |route|;
    if k == n - 1 {
      assert route[..k + 1] == route;
    } else {
      var front := route[..n - 1];
      RouteLengthSplit(distances, front, k);
      assert front[..k + 1] == route[..k + 1];
      assert route[k..][..n - 1 - k] == front[k..];
      assert route[k..][n - 1 - k - 1] == route[n - 2];
    }
  }

  /** The length of a there-and-back route is the length of its forward
      route plus the length of that route read backwards, each leg measured
      in the direction it is travelled. */
  lemma RouteLengthThereAndBack(distances: map<(string, string), int>, forward: seq<string>)
    requires |forward| >= 1
    ensures RouteLength(distances, ThereAndBack(forward))
         == RouteLength(distances, forward) + RouteLength(distances, Reverse(forward))
  {
    var n := |forward|;
    var back := Reverse(forward[..n - 1]);
    var route := forward + back;
    RouteLengthSplit(distances, route, n - 1);
    assert route[..n] == forward;
    assert route[n - 1..] == [forward[n - 1]] + back;
    ReverseLast(forward);
  }

  /** One more stop adds the leg from the last stop to it. */
  lemma RouteLengthAppend(distances: map<(string, string), int>, route: seq<string>, stop: string)
    requires |route| >= 1
    ensures RouteLength(distances, route + [stop]) == RouteLength(distances, route) + Leg(distances, route[|route| - 1], stop)
  {
    assert (route + [stop])[..|route|] == route;
  }

  /** A route of two or more stops is its first leg, then the rest. */
  lemma RouteLengthFirstLeg(distances: map<(string, string), int>, route: seq<string>)
    requires |route| >= 2
    ensures RouteLength(distances, route) == Leg(distances, route[0], route[1]) + RouteLength(distances, route[1..])
  {
    RouteLengthSplit(distances, route, 1);
    assert route[..2] == [route[0], route[1]];
    assert [route[0], route[1]][..1] == [route[0]];
  }

  /** Where every declared distance is the same both ways, a route and its
      reverse have the same length. */
  lemma {:induction false} RouteLengthReverse(distances: map<(string, string), int>, route: seq<string>)
    requires forall a, b :: Leg(distances, a, b) == Leg(distances, b, a)
    ensures RouteLength(distances, Reverse(route)) == RouteLength(distances, route)
    decreases |route|
  {
    var n := |route|;
    if n >= 2 {
      var tail := route[1..];
      RouteLengthReverse(distances, tail);
      var back := Reverse(tail);
      assert Reverse(route) == back + [route[0]];
      assert back[|back| - 1] == route[1];
      RouteLengthAppend(distances, back, route[0]);
      RouteLengthFirstLeg(distances, route);
    }
  }

  /** Declared distances are directional: declaring only A to B does not
      make the route back from B to A any longer. */
  lemma DirectionalLengths(a: string, b: string, d: int)
    requires a != b
    ensures RouteLength(map[(a, b) := d], [a, b]) == d
    ensures RouteLength(map[(a, b) := d], [b, a]) == 0
  {
    assert [a, b][..1] == [a];
    assert [b, a][..1] == [b];
  }

  /** With no negative declared distance, no route is negative. */
  lemma {:induction false} RouteLengthNonNegative(distances: map<(string, string), int>, route: seq<string>)
    requires forall pair :: pair in distances ==> distances[pair] >= 0
    ensures RouteLength(distances, route) >= 0
    decreases |route|
  {
    if |route| > 1 {
      RouteLengthNonNegative(distances, route[..|route| - 1]);
    }
  }

  // ---------------------------------------------------------------------
  // The bus AddBus stores

  /** What StopsToStopPtr makes of a list of names: the catalogue's stop for
      each, or `None` (a null pointer) for a name it does not know. */
  function StopRefs(stops: map<string, Stop>, names: seq<string>): (r: seq<Option<Stop>>)
    ensures |r| == |names|
    ensures forall i :: 0 <= i < |names| ==> r[i] == if names[i] in stops then Some(stops[names[i]]) else None
    decreases |names|
  {
    if names == [] then []
    else
      var last := names[|names| - 1];
      StopRefs(stops, names[..|names| - 1]) + [if last in stops then Some(stops[last]) else None]
  }

  /** A bus query AddBus can process: its words can be split off, every stop
      word names a known stop (the source dereferences the search result),
      and the separator kind is set unless the route has one stop, where its
      value does not matter. */
  predicate BusQueryValid(stops: map<string, Stop>, raw: string)
  {
    Splittable(raw) && AllResolve(stops, Words(raw)[1..]) && (Separator(raw).Some? || |Words(raw)| <= 2)
  }

  /** The separator kind the route is built with. When the source leaves it
      unset the route has one stop, and any value gives the same traversal. */
  function RouteSeparator(raw: string): SeparatorType
  {
    match Separator(raw)
    case Some(s) => s
    case None => GREATER_THAN
  }

  /** For a route of at most one stop the separator kind makes no difference. */
  lemma TraversalOfOneStop(stops: map<string, Stop>, words: seq<string>, s1: SeparatorType, s2: SeparatorType)
    requires 1 <= |words| <= 2 && AllResolve(stops, words[1..])
    ensures Traversal(stops, words, s1) == Traversal(stops, words, s2)
  {
    var forward := CanonicalNames(stops, words[1..]);
    if forward != [] {
      assert forward[..|forward| - 1] == [];
      assert Reverse<string>([]) == [];
      assert ThereAndBack(forward) == forward;
    }
  }

  /** The bus `AddBus(raw_query)` hands to the catalogue. */
  function AssembleBus(stops: map<string, Stop>, distances: map<(string, string), int>, raw: string): Bus
    requires BusQueryValid(stops, raw)
  {
    var words := Words(raw);
    var route := Traversal(stops, words, RouteSeparator(raw));
    Bus(words[0], StopRefs(stops, route), UniqueStops(words), RouteLength(distances, route))
  }

  /** Every entry of a traversal is one of its stop words, so it resolves. */
  lemma TraversalResolves(stops: map<string, Stop>, words: seq<string>, separator: SeparatorType)
    requires |words| >= 1 && AllResolve(stops, words[1..]) && SelfNamed(stops)
    ensures AllResolve(stops, Traversal(stops, words, separator))
  {
    var route := Traversal(stops, words, separator);
    UniqueStopsOfTraversal(stops, words, separator);
    forall i | 0 <= i < |route| ensures route[i] in stops {
      assert route[i] in Elements(route);
      var j :| 0 <= j < |words[1..]| && words[1..][j] == route[i];
    }
  }

  /** Names that resolve become references to stops the catalogue holds. */
  lemma StopRefsResolve(stops: map<string, Stop>, names: seq<string>)
    requires AllResolve(stops, names) && SelfNamed(stops)
    ensures forall i :: 0 <= i < |names| ==>
      StopRefs(stops, names)[i].Some? && StopRefs(stops, names)[i].value.name in stops
  {
  }

  /** In a catalogue that files stops under their own names, the stored bus
      refers to a known stop at every position of its traversal, and its
      unique-stop count is the number of distinct stops among its entries. */
  lemma AssembledBusStops(stops: map<string, Stop>, distances: map<(string, string), int>, raw: string)
    requires BusQueryValid(stops, raw) && SelfNamed(stops)
    ensures var bus := AssembleBus(stops, distances, raw);
      (forall i :: 0 <= i < |bus.route| ==> bus.route[i].Some? && bus.route[i].value.name in stops) &&
      bus.uniqueStops == |Elements(Traversal(stops, Words(raw), RouteSeparator(raw)))| &&
      bus.uniqueStops <= |Words(raw)| - 1
  {
    var words := Words(raw);
    var route := Traversal(stops, words, RouteSeparator(raw));
    UniqueStopsOfTraversal(stops, words, RouteSeparator(raw));
    UniqueStopsBounds(words);
    TraversalResolves(stops, words, RouteSeparator(raw));
    StopRefsResolve(stops, route);
  }

  /** The number of entries of a traversal over n stop words. */
  lemma TraversalCount(stops: map<string, Stop>, words: seq<string>, separator: SeparatorType)
    requires |words| >= 1 && AllResolve(stops, words[1..])
    ensures |Traversal(stops, words, separator)|
         == if separator == DASH && |words| >= 2 then 2 * (|words| - 1) - 1 else |words| - 1
  {
  }

  /** The length of a there-and-back traversal over stops filed under their
      own names: the stop words forward, then backward. */
  lemma ThereAndBackTraversalLength(stops: map<string, Stop>, distances: map<(string, string), int>, words: seq<string>)
    requires |words| >= 2 && AllResolve(stops, words[1..]) && SelfNamed(stops)
    ensures RouteLength(distances, Traversal(stops, words, DASH))
         == RouteLength(distances, words[1..]) + RouteLength(distances, Reverse(words[1..]))
  {
    UniqueStopsOfTraversal(stops, words, DASH);
    RouteLengthThereAndBack(distances, words[1..]);
  }

  /** A query whose separator is `-` has at least one stop word. */
  lemma DashHasStops(raw: string)
    requires Splittable(raw) && Separator(raw) == Some(DASH)
    ensures |Words(raw)| >= 2
  {
    WordsShape(raw);
    LastSeparatorFacts(Kind(raw), Body(raw));
  }

  /** The stored bus has n entries for a circular route of n stops and
      2n - 1 for a there-and-back one, whose length is that of its forward
      and backward legs together. */
  lemma AssembledBusLength(stops: map<string, Stop>, distances: map<(string, string), int>, raw: string)
    requires BusQueryValid(stops, raw) && SelfNamed(stops)
    ensures var bus := AssembleBus(stops, distances, raw);
      var n := |Words(raw)| - 1;
      |bus.route| == (if Separator(raw) == Some(DASH) then 2 * n - 1 else n) &&
      (Separator(raw) == Some(DASH) ==>
        bus.actualLength == RouteLength(distances, Words(raw)[1..]) + RouteLength(distances, Reverse(Words(raw)[1..])))
  {
    var words := Words(raw);
    var sep := RouteSeparator(raw);
    var route := Traversal(stops, words, sep);
    assert AssembleBus(stops, distances, raw)
        == Bus(words[0], StopRefs(stops, route), UniqueStops(words), RouteLength(distances, route));
    TraversalCount(stops, words, sep);
    if Separator(raw) == Some(DASH) {
      DashHasStops(raw);
      assert sep == DASH;
      ThereAndBackTraversalLength(stops, distances, words);
    } else {
      assert sep != DASH;
    }
  }
}
