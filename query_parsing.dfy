/** The text-command tokenizer of `RequestHandler`: reading the entity name
    out of a query and cutting the rest into words, and cutting one
    `"<length> to <stop>"` clause in two. */
module QueryParsing {
  import opened Wrappers
  import opened Text

  /** `RequestHandler::SeparatorType`. */
  datatype SeparatorType = DASH | GREATER_THAN | NO_HAVE

  // ---------------------------------------------------------------------
  // QueryGetName

  /** Where QueryGetName starts reading the name: one past the first space.
      Without a space, `npos + 1` wraps around to 0. */
  function NameStart(str: string): (p: nat)
    ensures p <= |str|
    ensures (p == 0) == (forall j :: 0 <= j < |str| ==> str[j] != ' ')
    ensures p > 0 ==> str[p - 1] == ' ' && forall j :: 0 <= j < p - 1 ==> str[j] != ' '
  {
    match FindFirst(str, ' ', 0)
    case None => 0
    case Some(k) => k + 1
  }

  /** `RequestHandler::QueryGetName`: the entity name, and the position just
      past the colon that ends it, or `None` (npos) when no colon follows
      the first space. */
  function QueryGetName(str: string): (r: (string, Option<nat>))
    ensures r.1.None? <==> forall j :: NameStart(str) <= j < |str| ==> str[j] != ':'
    ensures r.1.None? ==> r.0 == str[NameStart(str)..]
    ensures r.1.Some? ==> NameStart(str) < r.1.value <= |str| && str[r.1.value - 1] == ':'
    ensures r.1.Some? ==> r.0 == str[NameStart(str)..r.1.value - 1]
    ensures ':' !in r.0
  {
    var p := NameStart(str);
    match FindFirst(str, ':', p)
    case None => (str[p..], None)
    case Some(c) => (str[p..c], Some(c + 1))
  }

  // ---------------------------------------------------------------------
  // SplitIntoWordsBySeparator, as functions

  /** The character that selects the splitting rule: the query's first. An
      empty query has no text after a colon, so its rule never applies. */
  function Kind(str: string): char
  {
    if str == [] then ' ' else str[0]
  }

  /** The text the scanning loop walks over: everything after the name's
      colon, and nothing when there is no colon. */
  function Body(str: string): string
  {
    match QueryGetName(str).1
    case None => []
    case Some(q) => str[q..]
  }

  /** Whether `c` ends a word in a query whose first character is `kind`:
      `>` and `-` in a bus query, `,` in a stop query. */
  predicate Splits(kind: char, c: char)
  {
    (kind == 'B' && (c == '>' || c == '-')) || (kind == 'S' && c == ',')
  }

  /** Where the scanning loop stands after reading some text: the words a
      splitting character has ended, still padded, and the word being read. */
  datatype Scan = Scan(done: seq<string>, pending: string)

  function ScanText(kind: char, s: string): Scan
    decreases |s|
  {
    if s == [] then Scan([], [])
    else
      var st := ScanText(kind, s[..|s| - 1]);
      var c := s[|s| - 1];
      if Splits(kind, c) then Scan(st.done + [st.pending], [])
      else Scan(st.done, st.pending + [c])
  }

  /** `s` cut at every character that splits; the pieces keep their padding. */
  function Segments(kind: char, s: string): (r: seq<string>)
    ensures |r| >= 1
  {
    ScanText(kind, s).done + [ScanText(kind, s).pending]
  }

  /** The segments of `s` that a splitting character has ended. */
  function Done(kind: char, s: string): seq<string>
  {
    ScanText(kind, s).done
  }

  /** The segment still being read at the end of `s`. */
  function Pending(kind: char, s: string): string
  {
    ScanText(kind, s).pending
  }

  /** The number of characters of `s` that split. */
  function SplitCount(kind: char, s: string): nat
    decreases |s|
  {
    if s == [] then 0
    else SplitCount(kind, s[..|s| - 1]) + (if Splits(kind, s[|s| - 1]) then 1 else 0)
  }

  /** The separator kind of the last `>` or `-` scanned in a bus query;
      `None` when none was scanned, where the source leaves its variable
      uninitialised. */
  function LastSeparator(kind: char, s: string): (r: Option<SeparatorType>)
    ensures r != Some(NO_HAVE)
    ensures kind != 'B' ==> r == None
    decreases |s|
  {
    if s == [] then None
    else if kind == 'B' && (s[|s| - 1] == '>' || s[|s| - 1] == '-') then
      Some(if s[|s| - 1] == '>' then GREATER_THAN else DASH)
    else LastSeparator(kind, s[..|s| - 1])
  }

  /** `word.substr(1, word.size() - 2)`: for a one-character word the count
      wraps around and the result is empty. */
  function TrimBoth(w: string): string
    requires |w| >= 1
  {
    if |w| >= 2 then w[1..|w| - 1] else []
  }

  /** What the loop keeps of a word ended by a splitting character. */
  function TrimInner(kind: char, w: string): string
    requires |w| >= 1
  {
    if kind == 'B' then TrimBoth(w) else w[1..]
  }

  function TrimAll(kind: char, segs: seq<string>): (r: seq<string>)
    requires [] !in segs
    ensures |r| == |segs|
    ensures forall j :: 0 <= j < |segs| ==> r[j] == TrimInner(kind, segs[j])
    decreases |segs|
  {
    if segs == [] then []
    else
      assert segs[..|segs| - 1] <= segs;
      TrimAll(kind, segs[..|segs| - 1]) + [TrimInner(kind, segs[|segs| - 1])]
  }

  /** Every word has a first character to drop. Otherwise one of the
      `substr(1, …)` calls throws `std::out_of_range`; in particular a query
      with nothing after its colon, or without a colon, is not splittable. */
  predicate Splittable(str: string)
  {
    [] !in Segments(Kind(str), Body(str))
  }

  /** A word free of splitting characters. */
  predicate NoSplits(kind: char, w: string)
  {
    forall i :: 0 <= i < |w| ==> !Splits(kind, w[i])
  }

  /** The words SplitIntoWordsBySeparator returns: the name, then each
      segment trimmed. */
  function Words(str: string): seq<string>
    requires Splittable(str)
  {
    var segs := Segments(Kind(str), Body(str));
    assert Done(Kind(str), Body(str)) <= segs;
    assert Pending(Kind(str), Body(str)) in segs;
    [QueryGetName(str).0] + TrimAll(Kind(str), Done(Kind(str), Body(str)))
      + [Pending(Kind(str), Body(str))[1..]]
  }

  /** The separator kind SplitIntoWordsBySeparator returns. */
  function Separator(str: string): Option<SeparatorType>
  {
    LastSeparator(Kind(str), Body(str))
  }

  // ---------------------------------------------------------------------
  // Facts about the splitting functions

  lemma {:induction false} SegmentsCount(kind: char, s: string)
    ensures |Segments(kind, s)| == 1 + SplitCount(kind, s)
    decreases |s|
  {
    if s != [] {
      SegmentsCount(kind, s[..|s| - 1]);
    }
  }

  /** Appending a splitting character ends the word being read. */
  lemma SegmentsAppendSplit(kind: char, s: string, c: char)
    requires Splits(kind, c)
    ensures ScanText(kind, s + [c]) == Scan(Done(kind, s) + [Pending(kind, s)], [])
  {
    assert (s + [c])[..|s|] == s;
  }

  /** Appending any other character extends the word being read. */
  lemma SegmentsAppendChar(kind: char, s: string, c: char)
    requires !Splits(kind, c)
    ensures ScanText(kind, s + [c]) == Scan(Done(kind, s), Pending(kind, s) + [c])
  {
    assert (s + [c])[..|s|] == s;
  }

  /** Appending text without splitting characters extends the word being read. */
  lemma {:induction false} SegmentsAppendPlain(kind: char, s: string, t: string)
    requires NoSplits(kind, t)
    ensures ScanText(kind, s + t) == Scan(Done(kind, s), Pending(kind, s) + t)
    decreases |t|
  {
    if t == [] {
      assert s + t == s;
    } else {
      var t' := t[..|t| - 1];
      var c := t[|t| - 1];
      SegmentsAppendPlain(kind, s, t');
      SegmentsAppendChar(kind, s + t', c);
      AppendLast(s, t);
      AppendLast(Pending(kind, s), t);
    }
  }

  /** The words finished while reading a prefix of `s` are the first words
      finished while reading `s`. */
  lemma {:induction false} DoneOfPrefix(kind: char, s: string, k: nat)
    requires k <= |s|
    ensures Done(kind, s[..k]) <= Done(kind, s)
    decreases |s| - k
  {
    if k == |s| {
      assert s[..k] == s;
    } else {
      DoneOfPrefix(kind, s, k + 1);
      assert s[..k + 1] == s[..k] + [s[k]];
      if Splits(kind, s[k]) {
        SegmentsAppendSplit(kind, s[..k], s[k]);
      } else {
        SegmentsAppendPlain(kind, s[..k], [s[k]]);
      }
    }
  }

  /** A splitting character and a plain piece after some text end the word
      being read and leave the piece as the word being read. */
  lemma ScanSplitThenPlain(kind: char, joined: string, sep: char, last: string)
    requires Splits(kind, sep) && NoSplits(kind, last)
    ensures ScanText(kind, joined + [sep] + last) == Scan(Done(kind, joined) + [Pending(kind, joined)], last)
  {
    SegmentsAppendSplit(kind, joined, sep);
    SegmentsAppendPlain(kind, joined + [sep], last);
    assert [] + last == last;
  }

  /** Text without splitting characters is one word still being read. */
  lemma ScanOfPlain(kind: char, t: string)
    requires NoSplits(kind, t)
    ensures ScanText(kind, t) == Scan([], t)
  {
    SegmentsAppendPlain(kind, [], t);
    assert [] + t == t;
  }

  /** Scanning pieces joined by a splitting character, when no piece holds
      one, finishes every piece but the last, which is still being read. */
  lemma {:induction false} ScanOfJoin(kind: char, sep: char, pieces: seq<string>)
    requires Splits(kind, sep) && |pieces| >= 1
    requires forall j :: 0 <= j < |pieces| ==> NoSplits(kind, pieces[j])
    ensures ScanText(kind, JoinWith(sep, pieces)) == Scan(pieces[..|pieces| - 1], pieces[|pieces| - 1])
    decreases |pieces|
  {
    var n := |pieces|;
    if n == 1 {
      ScanOfPlain(kind, pieces[0]);
    } else {
      var front := pieces[..n - 1];
      assert forall j :: 0 <= j < |front| ==> NoSplits(kind, front[j]);
      ScanOfJoin(kind, sep, front);
      ScanSplitThenPlain(kind, JoinWith(sep, front), sep, pieces[n - 1]);
      FrontLast(front);
    }
  }

  /** The segments of pieces joined by a splitting character are the pieces,
      when no piece holds a splitting character. */
  lemma SegmentsOfJoin(kind: char, sep: char, pieces: seq<string>)
    requires Splits(kind, sep) && |pieces| >= 1
    requires forall j :: 0 <= j < |pieces| ==> NoSplits(kind, pieces[j])
    ensures ScanText(kind, JoinWith(sep, pieces)) == Scan(pieces[..|pieces| - 1], pieces[|pieces| - 1])
    ensures Segments(kind, JoinWith(sep, pieces)) == pieces
  {
    ScanOfJoin(kind, sep, pieces);
    FrontLast(pieces);
  }

  /** Appending text without splitting characters keeps the separator kind. */
  lemma {:induction false} LastSeparatorAppendPlain(kind: char, s: string, t: string)
    requires NoSplits(kind, t)
    ensures LastSeparator(kind, s + t) == LastSeparator(kind, s)
    decreases |t|
  {
    if t == [] {
      assert s + t == s;
    } else {
      LastSeparatorAppendPlain(kind, s, t[..|t| - 1]);
      assert (s + t)[..|s + t| - 1] == s + t[..|t| - 1];
    }
  }

  /** The word count of SplitIntoWordsBySeparator is two more than the
      number of splitting characters after the colon; the first word is the
      name; a word ended by a splitting character loses its first character,
      and in a bus query its last one too; the final word loses only its
      first character. */
  lemma WordsShape(str: string)
    requires Splittable(str)
    ensures |Words(str)| == 2 + SplitCount(Kind(str), Body(str))
    ensures Words(str)[0] == QueryGetName(str).0
    ensures forall j :: 1 <= j < |Words(str)| - 1 ==>
      Words(str)[j] == TrimInner(Kind(str), Segments(Kind(str), Body(str))[j - 1])
    ensures Words(str)[|Words(str)| - 1] == Pending(Kind(str), Body(str))[1..]
  {
    SegmentsCount(Kind(str), Body(str));
  }

  /** The separator kind is never NO_HAVE, is set exactly when a bus query
      scans a `>` or a `-`, and is then the kind of the last one scanned. */
  lemma {:induction false} LastSeparatorFacts(kind: char, s: string)
    ensures LastSeparator(kind, s) != Some(NO_HAVE)
    ensures LastSeparator(kind, s).None? <==> kind != 'B' || SplitCount(kind, s) == 0
    ensures forall j :: kind == 'B' && 0 <= j < |s| && Splits(kind, s[j]) &&
                        (forall i :: j < i < |s| ==> !Splits(kind, s[i])) ==>
      LastSeparator(kind, s) == Some(if s[j] == '>' then GREATER_THAN else DASH)
    decreases |s|
  {
    if s != [] {
      var t := s[..|s| - 1];
      LastSeparatorFacts(kind, t);
      forall j | kind == 'B' && 0 <= j < |s| && Splits(kind, s[j]) && (forall i :: j < i < |s| ==> !Splits(kind, s[i]))
        ensures LastSeparator(kind, s) == Some(if s[j] == '>' then GREATER_THAN else DASH)
      {
        if j < |s| - 1 {
          assert t[j] == s[j];
          assert forall i :: j < i < |t| ==> t[i] == s[i];
        }
      }
    }
  }

  /** In a bus query the separator kind is left unset only for a route of a
      single stop, where the words are the name and that stop. */
  lemma BusQuerySeparator(str: string)
    requires Splittable(str) && Kind(str) == 'B'
    ensures Separator(str).Some? || |Words(str)| == 2
  {
    WordsShape(str);
    LastSeparatorFacts(Kind(str), Body(str));
  }

  // ---------------------------------------------------------------------
  // SplitIntoLengthStop

  /** Whether SplitIntoLengthStop can take its `substr(pos + 4)`: the
      position four past the first space lies within the clause. Without a
      space, `npos + 4` wraps around to 3. */
  predicate LengthStopSplittable(str: string)
  {
    match FindFirst(str, ' ', 0)
    case None => 3 <= |str|
    case Some(k) => k + 4 <= |str|
  }

  /** `RequestHandler::SplitIntoLengthStop`: the text before the first space
      (the length with its unit), and the text from four characters past
      that space on (the stop name after `" to "`). */
  function SplitIntoLengthStop(str: string): (r: (string, string))
    requires LengthStopSplittable(str)
    ensures |r.0| <= |str| && r.0 == str[..|r.0|]
    ensures forall j :: 0 <= j < |r.0| ==> r.0[j] != ' '
    ensures |r.0| < |str| ==> str[|r.0|] == ' ' && |r.0| + 4 <= |str| && r.1 == str[|r.0| + 4..]
    ensures |r.0| == |str| ==> r.1 == str[3..]
  {
    match FindFirst(str, ' ', 0)
    case None => (str, str[3..])
    case Some(k) => (str[..k], str[k + 4..])
  }

  // ---------------------------------------------------------------------
  // Queries as the input language writes them, and reading them back

  /** A query: keyword, one space, the entity name, a colon, the body. */
  function FormatQuery(keyword: string, name: string, body: string): string
  {
    keyword + " " + name + ":" + body
  }

  /** Where the characters of a formatted query come from. */
  lemma FormatChars(keyword: string, name: string, body: string)
    ensures var q := FormatQuery(keyword, name, body);
      var p := |keyword| + 1;
      |q| == p + |name| + 1 + |body| &&
      (forall j :: 0 <= j < |keyword| ==> q[j] == keyword[j]) && q[|keyword|] == ' ' &&
      (forall j :: p <= j < p + |name| ==> q[j] == name[j - p]) && q[p + |name|] == ':'
  {
  }

  /** The name and the body of a formatted query, as slices. */
  lemma FormatSlices(keyword: string, name: string, body: string)
    ensures var q := FormatQuery(keyword, name, body);
      var p := |keyword| + 1;
      |q| == p + |name| + 1 + |body| &&
      q[p..p + |name|] == name && q[p + |name| + 1..] == body
  {
  }

  /** The first space of a formatted query is the one after its keyword. */
  lemma FormatSpace(keyword: string, name: string, body: string)
    requires ' ' !in keyword
    ensures FindFirst(FormatQuery(keyword, name, body), ' ', 0) == Some(|keyword|)
  {
    FormatChars(keyword, name, body);
    FindFirstAt(FormatQuery(keyword, name, body), ' ', 0, |keyword|);
  }

  /** A name without a colon, followed by one, ends at that colon. */
  lemma ColonAfterJoin(a: string, name: string, b: string)
    requires ':' !in name && |b| >= 1 && b[0] == ':'
    ensures FindFirst(a + name + b, ':', |a|) == Some(|a| + |name|)
  {
    var q := a + name + b;
    forall j | |a| <= j < |a| + |name| ensures q[j] != ':' {
      assert q[j] == name[j - |a|];
      assert name[j - |a|] in name;
    }
    FindFirstAt(q, ':', |a|, |a| + |name|);
  }

  /** The first colon after the keyword's space is the one that ends the name. */
  lemma FormatColon(keyword: string, name: string, body: string)
    requires ':' !in name
    ensures FindFirst(FormatQuery(keyword, name, body), ':', |keyword| + 1).Some?
    ensures FindFirst(FormatQuery(keyword, name, body), ':', |keyword| + 1).value == |keyword| + 1 + |name|
  {
    assert FormatQuery(keyword, name, body) == (keyword + " ") + name + (":" + body);
    ColonAfterJoin(keyword + " ", name, ":" + body);
  }

  /** QueryGetName reads back the name of a formatted query, and the text
      after its colon is the body. */
  lemma QueryOfFormat(keyword: string, name: string, body: string)
    requires |keyword| >= 1 && ' ' !in keyword && ':' !in name
    ensures Kind(FormatQuery(keyword, name, body)) == keyword[0]
    ensures QueryGetName(FormatQuery(keyword, name, body)) == (name, Some(|keyword| + |name| + 2))
    ensures Body(FormatQuery(keyword, name, body)) == body
  {
    var q := FormatQuery(keyword, name, body);
    FormatSlices(keyword, name, body);
    FormatSpace(keyword, name, body);
    FormatColon(keyword, name, body);
  }

  /** The body of a bus query: every stop name padded with a space on each
      side, except the last, which has a leading space only. */
  function PaddedStops(stops: seq<string>): (r: seq<string>)
    requires |stops| >= 1
  {
    seq(|stops|, j requires 0 <= j < |stops| => if j < |stops| - 1 then " " + stops[j] + " " else " " + stops[j])
  }

  /** `Bus <name>: <stop> > <stop> > …`, or with `-` for a there-and-back route. */
  function BusQuery(name: string, stops: seq<string>, sep: char): string
    requires |stops| >= 1
  {
    FormatQuery("Bus", name, JoinWith(sep, PaddedStops(stops)))
  }

  /** `Stop <name>: <item>, <item>, …`. */
  function StopQuery(name: string, items: seq<string>): string
    requires |items| >= 1
  {
    FormatQuery("Stop", name, JoinWith(',', seq(|items|, j requires 0 <= j < |items| => " " + items[j])))
  }

  lemma PaddingHasNoSplits(kind: char, s: string, pad: string)
    requires NoSplits(kind, s) && (pad == [] || pad == " ") && kind != ' '
    ensures NoSplits(kind, " " + s + pad)
  {
    var w := " " + s + pad;
    forall i | 0 <= i < |w| ensures !Splits(kind, w[i]) {
      if 1 <= i <= |s| {
        assert w[i] == s[i - 1];
      }
    }
  }

  /** The words of a query whose body is a join of pieces free of
      splitting characters: the name, then the pieces trimmed. */
  lemma WordsOfJoin(q: string, sep: char, pieces: seq<string>)
    requires Splits(Kind(q), sep) && |pieces| >= 1 && Body(q) == JoinWith(sep, pieces)
    requires forall j :: 0 <= j < |pieces| ==> NoSplits(Kind(q), pieces[j])
    requires [] !in pieces
    ensures Splittable(q)
    ensures Words(q) == [QueryGetName(q).0] + TrimAll(Kind(q), pieces[..|pieces| - 1]) + [pieces[|pieces| - 1][1..]]
  {
    SegmentsOfJoin(Kind(q), sep, pieces);
  }

  /** The words of such a query are its name and the given items, when
      trimming the pieces gives the items. */
  lemma WordsOfTrimmedJoin(q: string, sep: char, pieces: seq<string>, items: seq<string>)
    requires Splits(Kind(q), sep) && |pieces| >= 1 && Body(q) == JoinWith(sep, pieces)
    requires forall j :: 0 <= j < |pieces| ==> NoSplits(Kind(q), pieces[j])
    requires [] !in pieces && |items| == |pieces|
    requires TrimAll(Kind(q), pieces[..|pieces| - 1]) == items[..|items| - 1]
    requires pieces[|pieces| - 1][1..] == items[|items| - 1]
    ensures Splittable(q)
    ensures Words(q) == [QueryGetName(q).0] + items
  {
    WordsOfJoin(q, sep, pieces);
    var name := QueryGetName(q).0;
    var n := |items|;
    FrontLast(items);
    assert [name] + items[..n - 1] + [items[n - 1]] == [name] + (items[..n - 1] + [items[n - 1]]);
  }

  /** The separator kind of a bus-query body joined by `sep`. */
  lemma {:induction false} SeparatorOfJoin(sep: char, pieces: seq<string>)
    requires sep == '>' || sep == '-'
    requires |pieces| >= 1 && forall j :: 0 <= j < |pieces| ==> NoSplits('B', pieces[j])
    ensures LastSeparator('B', JoinWith(sep, pieces))
         == if |pieces| == 1 then None else Some(if sep == '>' then GREATER_THAN else DASH)
  {
    var n := |pieces|;
    if n == 1 {
      LastSeparatorAppendPlain('B', [], pieces[0]);
      assert [] + pieces[0] == pieces[0];
    } else {
      var front := JoinWith(sep, pieces[..n - 1]);
      assert JoinWith(sep, pieces) == front + [sep] + pieces[n - 1];
      LastSeparatorAppendPlain('B', front + [sep], pieces[n - 1]);
    }
  }

  /** Trimming a padded word gives the word back. */
  lemma Unpad(w: string)
    ensures TrimBoth(" " + w + " ") == w
    ensures (" " + w)[1..] == w
  {
    var padded := " " + w + " ";
    assert padded[1..|padded| - 1] == w;
  }

  lemma PaddedStopsPlain(stops: seq<string>)
    requires |stops| >= 1
    requires forall j :: 0 <= j < |stops| ==> '>' !in stops[j] && '-' !in stops[j]
    ensures [] !in PaddedStops(stops)
    ensures forall j :: 0 <= j < |stops| ==> NoSplits('B', PaddedStops(stops)[j])
  {
    var pieces := PaddedStops(stops);
    var n := |stops|;
    forall j | 0 <= j < n ensures NoSplits('B', pieces[j]) {
      assert NoSplits('B', stops[j]);
      PaddingHasNoSplits('B', stops[j], if j < n - 1 then " " else []);
    }
    assert forall j :: 0 <= j < n ==> |pieces[j]| >= 1;
  }

  /** Trimming every segment gives the words when each trims to its own. */
  lemma TrimAllOf(kind: char, segs: seq<string>, words: seq<string>)
    requires [] !in segs && |segs| == |words|
    requires forall j :: 0 <= j < |segs| ==> TrimInner(kind, segs[j]) == words[j]
    ensures TrimAll(kind, segs) == words
  {
  }

  lemma PaddedStopsTrim(stops: seq<string>)
    requires |stops| >= 1 && [] !in PaddedStops(stops)
    ensures TrimAll('B', PaddedStops(stops)[..|stops| - 1]) == stops[..|stops| - 1]
    ensures PaddedStops(stops)[|stops| - 1][1..] == stops[|stops| - 1]
  {
    var pieces := PaddedStops(stops);
    var n := |stops|;
    var front := pieces[..n - 1];
    forall j | 0 <= j < n - 1 ensures TrimInner('B', front[j]) == stops[..n - 1][j] {
      Unpad(stops[j]);
    }
    TrimAllOf('B', front, stops[..n - 1]);
    Unpad(stops[n - 1]);
  }

  /** The body of a bus query is cut back into its padded stops, none of
      which holds a splitting character, and trimming them gives the
      stops. */
  lemma PaddedStopsShape(stops: seq<string>)
    requires |stops| >= 1
    requires forall j :: 0 <= j < |stops| ==> '>' !in stops[j] && '-' !in stops[j]
    ensures [] !in PaddedStops(stops)
    ensures forall j :: 0 <= j < |stops| ==> NoSplits('B', PaddedStops(stops)[j])
    ensures TrimAll('B', PaddedStops(stops)[..|stops| - 1]) == stops[..|stops| - 1]
    ensures PaddedStops(stops)[|stops| - 1][1..] == stops[|stops| - 1]
  {
    PaddedStopsPlain(stops);
    PaddedStopsTrim(stops);
  }

  /** Tokenizing a bus query gives back its name and its stops, and the
      separator kind of the character that joined them (left unset for a
      single stop). */
  lemma BusQueryRoundTrip(name: string, stops: seq<string>, sep: char)
    requires sep == '>' || sep == '-'
    requires ':' !in name && |stops| >= 1
    requires forall j :: 0 <= j < |stops| ==> '>' !in stops[j] && '-' !in stops[j]
    ensures Splittable(BusQuery(name, stops, sep))
    ensures Words(BusQuery(name, stops, sep)) == [name] + stops
    ensures Separator(BusQuery(name, stops, sep))
         == if |stops| == 1 then None else Some(if sep == '>' then GREATER_THAN else DASH)
  {
    var pieces := PaddedStops(stops);
    QueryOfFormat("Bus", name, JoinWith(sep, pieces));
    PaddedStopsShape(stops);
    WordsOfTrimmedJoin(BusQuery(name, stops, sep), sep, pieces, stops);
    SeparatorOfJoin(sep, pieces);
  }

  lemma PaddedItemsShape(items: seq<string>)
    requires |items| >= 1
    requires forall j :: 0 <= j < |items| ==> ',' !in items[j]
    ensures var pieces := seq(|items|, j requires 0 <= j < |items| => " " + items[j]);
      [] !in pieces &&
      (forall j :: 0 <= j < |items| ==> NoSplits('S', pieces[j])) &&
      TrimAll('S', pieces[..|items| - 1]) == items[..|items| - 1] &&
      pieces[|items| - 1][1..] == items[|items| - 1]
  {
    var n := |items|;
    var pieces := seq(n, j requires 0 <= j < n => " " + items[j]);
    forall j | 0 <= j < n ensures NoSplits('S', pieces[j]) {
      assert NoSplits('S', items[j]);
      PaddingHasNoSplits('S', items[j], []);
      assert " " + items[j] + [] == pieces[j];
    }
    assert forall j :: 0 <= j < n ==> |pieces[j]| >= 1;
    var t := TrimAll('S', pieces[..n - 1]);
    forall j | 0 <= j < n - 1 ensures t[j] == items[j] {
      assert pieces[j] == " " + items[j];
    }
  }

  /** Tokenizing a stop query gives back its name and its items, and no
      separator kind. */
  lemma StopQueryRoundTrip(name: string, items: seq<string>)
    requires ':' !in name && |items| >= 1
    requires forall j :: 0 <= j < |items| ==> ',' !in items[j]
    ensures Splittable(StopQuery(name, items))
    ensures Words(StopQuery(name, items)) == [name] + items
    ensures Separator(StopQuery(name, items)) == None
  {
    var n := |items|;
    var pieces := seq(n, j requires 0 <= j < n => " " + items[j]);
    QueryOfFormat("Stop", name, JoinWith(',', pieces));
    PaddedItemsShape(items);
    WordsOfTrimmedJoin(StopQuery(name, items), ',', pieces, items);
  }

  // ---------------------------------------------------------------------
  // SplitIntoWordsBySeparator, the character loop

  /** Reading a splitting character of `body` ends the word being read,
      which is not empty, and records the separator kind in a bus query. */
  lemma ScanSplitStep(kind: char, body: string, k: nat)
    requires k < |body| && Splits(kind, body[k]) && [] !in Segments(kind, body)
    ensures [] !in Done(kind, body[..k]) && Pending(kind, body[..k]) != []
    ensures Done(kind, body[..k + 1]) == Done(kind, body[..k]) + [Pending(kind, body[..k])]
    ensures Pending(kind, body[..k + 1]) == []
    ensures LastSeparator(kind, body[..k + 1])
         == if kind == 'B' then Some(if body[k] == '>' then GREATER_THAN else DASH) else None
  {
    var prefix := body[..k];
    assert body[..k + 1] == prefix + [body[k]];
    SegmentsAppendSplit(kind, prefix, body[k]);
    DoneOfPrefix(kind, body, k + 1);
    var d := Done(kind, body[..k + 1]);
    assert d == Done(kind, prefix) + [Pending(kind, prefix)];
    assert d <= Done(kind, body);
    assert forall j :: 0 <= j < |d| ==> d[j] in Done(kind, body);
    assert forall j :: 0 <= j < |d| ==> d[j] != [];
    assert d[|d| - 1] == Pending(kind, prefix);
    assert d[..|d| - 1] == Done(kind, prefix);
  }

  /** The words so far, after one more word ended by a splitting character. */
  lemma AppendWord(name: string, kind: char, done: seq<string>, w: string)
    requires [] !in done && w != []
    ensures [] !in done + [w]
    ensures [name] + TrimAll(kind, done) + [TrimInner(kind, w)] == [name] + TrimAll(kind, done + [w])
  {
    assert (done + [w])[..|done|] == done;
  }

  /** Reading any other character extends the word being read. */
  lemma ScanPlainStep(kind: char, body: string, k: nat)
    requires k < |body| && !Splits(kind, body[k])
    ensures Done(kind, body[..k + 1]) == Done(kind, body[..k])
    ensures Pending(kind, body[..k + 1]) == Pending(kind, body[..k]) + [body[k]]
    ensures LastSeparator(kind, body[..k + 1]) == LastSeparator(kind, body[..k])
  {
    var prefix := body[..k];
    assert body[..k + 1] == prefix + [body[k]];
    SegmentsAppendPlain(kind, prefix, [body[k]]);
    LastSeparatorAppendPlain(kind, prefix, [body[k]]);
  }

  /** The words are those the scan of the body finished, trimmed, between
      the name and the last word, whose first character exists. */
  lemma WordsOfScan(str: string)
    requires Splittable(str)
    ensures [] !in Done(Kind(str), Body(str)) && Pending(Kind(str), Body(str)) != []
    ensures Words(str) == [QueryGetName(str).0] + TrimAll(Kind(str), Done(Kind(str), Body(str)))
                          + [Pending(Kind(str), Body(str))[1..]]
  {
    assert Pending(Kind(str), Body(str)) in Segments(Kind(str), Body(str));
  }

  /** Where the character loop stands after reading the first `k`
      characters of the body: the words so far are the name and the
      finished segments trimmed, `word` is the segment being read, and
      `sep` the separator kind seen last. */
  ghost predicate ScanInvariant(kind: char, body: string, k: int, name: string, words: seq<string>, word: string, sep: Option<SeparatorType>)
  {
    0 <= k <= |body| &&
    [] !in Done(kind, body[..k]) &&
    word == Pending(kind, body[..k]) &&
    words == [name] + TrimAll(kind, Done(kind, body[..k])) &&
    sep == LastSeparator(kind, body[..k])
  }

  method SplitIntoWordsBySeparator(str: string) returns (words: seq<string>, sep: Option<SeparatorType>)
    requires Splittable(str)
    ensures words == Words(str)
    ensures sep == Separator(str)
  {
    var nameAndPos := QueryGetName(str);
    words := [nameAndPos.0];
    sep := None;
    // A loop started at npos does not run.
    var start := if nameAndPos.1.Some? then nameAndPos.1.value else |str|;
    ghost var kind := Kind(str);
    ghost var body := Body(str);
    assert body == str[start..];
    var word: string := [];
    var i := start;
    while i < |str|
      invariant start <= i <= |str|
      invariant ScanInvariant(kind, body, i - start, nameAndPos.0, words, word, sep)
    {
      ghost var k := i - start;
      assert str[i] == body[k] && kind == str[0];
      if str[0] == 'B' && (str[i] == '>' || str[i] == '-') {
        ScanSplitStep(kind, body, k);
        AppendWord(nameAndPos.0, kind, Done(kind, body[..k]), word);
        sep := Some(if str[i] == '>' then GREATER_THAN else DASH);
        words := words + [TrimBoth(word)];
        word := [];
      } else if str[0] == 'S' && str[i] == ',' {
        ScanSplitStep(kind, body, k);
        AppendWord(nameAndPos.0, kind, Done(kind, body[..k]), word);
        words := words + [word[1..]];
        word := [];
      } else {
        ScanPlainStep(kind, body, k);
        word := word + [str[i]];
      }
      i := i + 1;
      assert i - start == k + 1;
    }
    assert body[..i - start] == body;
    WordsOfScan(str);
    words := words + [word[1..]];
  }
}
