/** The `"<length>m to <stop>"` clauses of a stop query, as the handler's
    `SetDistanceBetweenStops(raw_query)` reads them into directional
    distance registrations. */
module DistanceClauses {
  import opened Wrappers
  import opened Text
  import opened Stoi
  import opened QueryParsing
  import opened Catalogue

  /** `raw_distance.substr(0, raw_distance.size() - 1)`: the length without
      its one-character unit. For an empty text the count wraps around and
      the result is empty. */
  function DropUnit(s: string): string
  {
    if s == [] then [] else s[..|s| - 1]
  }

  /** A clause the loop reads without an exception: it can be cut in two,
      and its length without the unit is a number `std::stoi` accepts. */
  predicate ClauseValid(clause: string)
  {
    LengthStopSplittable(clause) && StoI(DropUnit(SplitIntoLengthStop(clause).0)).Some?
  }

  /** The registration that one clause makes for the stop `from`. */
  function ParseClause(from: string, clause: string): DistanceRecord
    requires ClauseValid(clause)
  {
    var parts := SplitIntoLengthStop(clause);
    DistanceRecord(from, parts.1, StoI(DropUnit(parts.0)).value)
  }

  /** The words the loop reads as clauses: the fourth word on, after the
      name and the two coordinates. */
  function Clauses(parts: seq<string>): seq<string>
  {
    if |parts| <= 3 then [] else parts[3..]
  }

  predicate AllClausesValid(clauses: seq<string>)
  {
    forall j :: 0 <= j < |clauses| ==> ClauseValid(clauses[j])
  }

  /** The registrations of the clauses, in order. */
  function Registrations(from: string, clauses: seq<string>): seq<DistanceRecord>
    requires AllClausesValid(clauses)
    decreases |clauses|
  {
    if clauses == [] then []
    else Registrations(from, clauses[..|clauses| - 1]) + [ParseClause(from, clauses[|clauses| - 1])]
  }

  /** Reading one more clause appends its registration. */
  lemma RegistrationsStep(from: string, clauses: seq<string>, k: nat)
    requires AllClausesValid(clauses) && k < |clauses|
    ensures AllClausesValid(clauses[..k]) && AllClausesValid(clauses[..k + 1])
    ensures Registrations(from, clauses[..k + 1]) == Registrations(from, clauses[..k]) + [ParseClause(from, clauses[k])]
  {
    assert clauses[..k + 1][..k] == clauses[..k];
  }

  /** Writing one more record updates its pair. */
  lemma ApplyRecordsStep(distances: map<(string, string), int>, records: seq<DistanceRecord>, r: DistanceRecord)
    ensures ApplyRecords(distances, records + [r]) == ApplyRecords(distances, records)[(r.from, r.to) := r.distance]
  {
    assert (records + [r])[..|records|] == records;
  }

  /** One more clause read: the log gains its registration and the map
      the pair it writes. */
  lemma RegistrationStateStep(from: string, clauses: seq<string>, k: nat,
                              oldLog: seq<DistanceRecord>, oldDistances: map<(string, string), int>,
                              log: seq<DistanceRecord>, distances: map<(string, string), int>)
    requires AllClausesValid(clauses) && k < |clauses|
    requires AllClausesValid(clauses[..k])
    requires log == oldLog + Registrations(from, clauses[..k])
    requires distances == ApplyRecords(oldDistances, Registrations(from, clauses[..k]))
    ensures AllClausesValid(clauses[..k + 1])
    ensures var r := ParseClause(from, clauses[k]);
      log + [r] == oldLog + Registrations(from, clauses[..k + 1]) &&
      distances[(r.from, r.to) := r.distance] == ApplyRecords(oldDistances, Registrations(from, clauses[..k + 1]))
  {
    RegistrationsStep(from, clauses, k);
    ApplyRecordsStep(oldDistances, Registrations(from, clauses[..k]), ParseClause(from, clauses[k]));
  }

  /** A stop query whose distance clauses can all be read. */
  predicate DistanceQueryValid(raw: string)
  {
    Splittable(raw) && AllClausesValid(Clauses(Words(raw)))
  }

  /** Every registration `SetDistanceBetweenStops(raw_query)` makes, in order. */
  function DistanceRecords(raw: string): seq<DistanceRecord>
    requires DistanceQueryValid(raw)
  {
    Registrations(Words(raw)[0], Clauses(Words(raw)))
  }

  lemma {:induction false} RegistrationsShape(from: string, clauses: seq<string>)
    requires AllClausesValid(clauses)
    ensures |Registrations(from, clauses)| == |clauses|
    ensures forall j :: 0 <= j < |clauses| ==> Registrations(from, clauses)[j] == ParseClause(from, clauses[j])
    decreases |clauses|
  {
    if clauses != [] {
      var n := |clauses|;
      var front := clauses[..n - 1];
      assert AllClausesValid(front) by {
        forall j | 0 <= j < n - 1 ensures ClauseValid(front[j]) {
          assert front[j] == clauses[j];
        }
      }
      RegistrationsShape(from, front);
      var r := Registrations(from, clauses);
      assert r == Registrations(from, front) + [ParseClause(from, clauses[n - 1])];
      forall j | 0 <= j < n ensures r[j] == ParseClause(from, clauses[j]) {
        if j < n - 1 {
          assert front[j] == clauses[j];
        }
      }
    }
  }

  /** A stop query with n words makes n - 3 registrations, one per clause in
      order, each from the stop the query names, to the stop its clause
      names, over the distance its clause gives. */
  lemma DistanceRecordsShape(raw: string)
    requires DistanceQueryValid(raw)
    ensures |DistanceRecords(raw)| == if |Words(raw)| <= 3 then 0 else |Words(raw)| - 3
    ensures forall j :: 0 <= j < |DistanceRecords(raw)| ==>
      var clause := Words(raw)[3 + j];
      ClauseValid(clause) &&
      DistanceRecords(raw)[j].from == Words(raw)[0] &&
      DistanceRecords(raw)[j].to == SplitIntoLengthStop(clause).1 &&
      DistanceRecords(raw)[j].distance == StoI(DropUnit(SplitIntoLengthStop(clause).0)).value
  {
    var words := Words(raw);
    var clauses := Clauses(words);
    RegistrationsShape(words[0], clauses);
    assert forall j :: 0 <= j < |clauses| ==> clauses[j] == words[3 + j];
  }

  /** A clause as the input language writes it: the distance, a
      one-character unit, `" to "`, the stop name. */
  function FormatClause(distance: nat, unit: char, to: string): string
  {
    Decimal(distance) + [unit] + " to " + to
  }

  /** Reading a written clause gives back its stop and its distance. */
  lemma ClauseRoundTrip(from: string, distance: nat, unit: char, to: string)
    requires distance <= INT_MAX && unit != ' ' && !IsDigit(unit)
    ensures ClauseValid(FormatClause(distance, unit, to))
    ensures ParseClause(from, FormatClause(distance, unit, to)) == DistanceRecord(from, to, distance)
  {
    var digits := Decimal(distance);
    var clause := FormatClause(distance, unit, to);
    var k := |digits| + 1;
    assert clause[k] == ' ';
    assert forall j :: 0 <= j < |digits| ==> clause[j] == digits[j] && IsDigit(digits[j]);
    assert FindFirst(clause, ' ', 0) == Some(k);
    var parts := SplitIntoLengthStop(clause);
    assert parts.0 == digits + [unit];
    assert parts.1 == to;
    assert DropUnit(parts.0) == digits;
    StoIDecimal(distance, []);
    assert digits + [] == digits;
  }

  /** A written clause holds a comma only where its stop name does. */
  lemma FormatClauseNoComma(distance: nat, unit: char, to: string)
    requires unit != ',' && ',' !in to
    ensures ',' !in FormatClause(distance, unit, to)
  {
    var digits := Decimal(distance);
    var clause := FormatClause(distance, unit, to);
    assert clause == digits + ([unit] + " to " + to);
    forall i | 0 <= i < |clause| ensures clause[i] != ',' {
      if i < |digits| {
        assert IsDigit(digits[i]);
      } else {
        assert clause[i] == ([unit] + " to " + to)[i - |digits|];
      }
    }
  }

  /** Writing `distance` into `distances` for the pair, or leaving it. */
  function ValueAfter(distances: map<(string, string), int>, records: seq<DistanceRecord>, pair: (string, string)): Option<int>
  {
    var d := ApplyRecords(distances, records);
    if pair in d then Some(d[pair]) else None
  }

  /** Registrations are directional: after writing the records in order, a
      pair that no record names keeps its old value. In particular the
      reverse pair of a registration is untouched. */
  lemma {:induction false} ApplyRecordsUntouched(distances: map<(string, string), int>, records: seq<DistanceRecord>, pair: (string, string))
    requires forall j :: 0 <= j < |records| ==> (records[j].from, records[j].to) != pair
    ensures ValueAfter(distances, records, pair) == (if pair in distances then Some(distances[pair]) else None)
    decreases |records|
  {
    if records != [] {
      ApplyRecordsUntouched(distances, records[..|records| - 1], pair);
    }
  }

  /** The last registration for a pair wins. */
  lemma {:induction false} ApplyRecordsLastWins(distances: map<(string, string), int>, records: seq<DistanceRecord>, j: nat)
    requires j < |records|
    requires forall k :: j < k < |records| ==> (records[k].from, records[k].to) != (records[j].from, records[j].to)
    ensures ValueAfter(distances, records, (records[j].from, records[j].to)) == Some(records[j].distance)
    decreases |records|
  {
    var n := |records|;
    if j < n - 1 {
      var front := records[..n - 1];
      assert front[j] == records[j];
      assert forall k :: j < k < n - 1 ==> front[k] == records[k];
      ApplyRecordsLastWins(distances, front, j);
    }
  }

  /** The clauses `<d_j>m to <t_j>`, one per declared distance. */
  function WrittenClauses(distances: seq<nat>, targets: seq<string>): seq<string>
    requires |distances| == |targets|
  {
    seq(|targets|, j requires 0 <= j < |targets| => FormatClause(distances[j], 'm', targets[j]))
  }

  /** The registrations that declaring `distances[j]` from `name` to
      `targets[j]`, in order, stands for. */
  function Declared(name: string, distances: seq<nat>, targets: seq<string>): seq<DistanceRecord>
    requires |distances| == |targets|
  {
    seq(|targets|, j requires 0 <= j < |targets| => DistanceRecord(name, targets[j], distances[j]))
  }

  /** Written clauses are read back as the registrations they declare. */
  lemma WrittenClausesRead(name: string, distances: seq<nat>, targets: seq<string>)
    requires |distances| == |targets|
    requires forall j :: 0 <= j < |targets| ==> distances[j] <= INT_MAX
    ensures AllClausesValid(WrittenClauses(distances, targets))
    ensures Registrations(name, WrittenClauses(distances, targets)) == Declared(name, distances, targets)
  {
    var clauses := WrittenClauses(distances, targets);
    forall j | 0 <= j < |clauses|
      ensures ClauseValid(clauses[j]) && ParseClause(name, clauses[j]) == DistanceRecord(name, targets[j], distances[j])
    {
      ClauseRoundTrip(name, distances[j], 'm', targets[j]);
    }
    RegistrationsShape(name, clauses);
  }

  /** The clause words of a stop query read as name, two coordinates, clauses. */
  lemma ClausesOfWords(words: seq<string>, name: string, lat: string, lng: string, clauses: seq<string>)
    requires words == [name] + ([lat, lng] + clauses)
    ensures Clauses(words) == clauses
  {
    assert words[3..] == clauses;
  }

  /** A stop query `Stop <name>: <lat>, <lng>, <d1>m to <s1>, …` makes one
      registration from `<name>` per clause, in the order written. */
  lemma DistanceQueryRoundTrip(name: string, lat: string, lng: string, distances: seq<nat>, targets: seq<string>)
    requires ':' !in name && ',' !in lat && ',' !in lng
    requires |distances| == |targets|
    requires forall j :: 0 <= j < |targets| ==> distances[j] <= INT_MAX && ',' !in targets[j]
    ensures var query := StopQuery(name, [lat, lng] + WrittenClauses(distances, targets));
      DistanceQueryValid(query) && DistanceRecords(query) == Declared(name, distances, targets)
  {
    var clauses := WrittenClauses(distances, targets);
    var items := [lat, lng] + clauses;
    forall j | 0 <= j < |items| ensures ',' !in items[j] {
      if j >= 2 {
        assert items[j] == clauses[j - 2];
        FormatClauseNoComma(distances[j - 2], 'm', targets[j - 2]);
      }
    }
    StopQueryRoundTrip(name, items);
    var words := Words(StopQuery(name, items));
    ClausesOfWords(words, name, lat, lng, clauses);
    WrittenClausesRead(name, distances, targets);
  }
}
