/** Character and sequence helpers shared by the parsing and route-assembly
    modules: `find_first_of` on one character, reversal, the set of elements
    of a sequence and joining pieces with a separator. */
module Text {
  import opened Wrappers

  /** The first index at or after `from` holding `c`, as
      `std::string_view::find_first_of(c, from)` computes it; `None` is `npos`. */
  function FindFirst(s: string, c: char, from: nat): (r: Option<nat>)
    ensures r.Some? ==> from <= r.value < |s| && s[r.value] == c
    ensures r.Some? ==> forall j :: from <= j < r.value ==> s[j] != c
    ensures r.None? ==> forall j :: from <= j < |s| ==> s[j] != c
    decreases |s| - from
  {
    if from >= |s| then None
    else if s[from] == c then Some(from)
    else FindFirst(s, c, from + 1)
  }

  /** An occurrence with none before it, from `from` on, is the one found. */
  lemma FindFirstAt(s: string, c: char, from: nat, k: nat)
    requires from <= k < |s| && s[k] == c
    requires forall j :: from <= j < k ==> s[j] != c
    ensures FindFirst(s, c, from) == Some(k)
  {
  }

  /** `s` read backwards. */
  function Reverse<T>(s: seq<T>): (r: seq<T>)
    ensures |r| == |s|
    ensures forall i :: 0 <= i < |s| ==> r[i] == s[|s| - 1 - i]
  {
    if s == [] then [] else Reverse(s[1..]) + [s[0]]
  }

  /** Reading backwards starts with the last element. */
  lemma {:induction false} ReverseLast<T>(s: seq<T>)
    requires |s| >= 1
    ensures Reverse(s) == [s[|s| - 1]] + Reverse(s[..|s| - 1])
    decreases |s|
  {
    var n := |s|;
    var front := s[..n - 1];
    if n == 1 {
      assert s[1..] == [] && front == [];
    } else {
      var t := s[1..];
      ReverseLast(t);
      assert t[n - 2] == s[n - 1];
      assert t[..n - 2] == front[1..] && front[0] == s[0];
      assert Reverse(front) == Reverse(t[..n - 2]) + [s[0]];
      assert Reverse(s) == ([s[n - 1]] + Reverse(t[..n - 2])) + [s[0]];
    }
  }

  /** The distinct values occurring in `s`. */
  function Elements<T>(s: seq<T>): set<T>
  {
    set x | x in s
  }

  /** No value occurs twice in `s`. */
  predicate Distinct<T(==)>(s: seq<T>)
  {
    forall i, j :: 0 <= i < j < |s| ==> s[i] != s[j]
  }

  /** A sequence repeats nothing exactly when its front repeats nothing and
      its last element is not in the front. */
  lemma DistinctLast<T>(s: seq<T>)
    requires |s| >= 1
    ensures Distinct(s) <==> Distinct(s[..|s| - 1]) && s[|s| - 1] !in s[..|s| - 1]
  {
    var n := |s|;
    var t := s[..n - 1];
    if Distinct(s) {
      forall i, j | 0 <= i < j < n - 1 ensures t[i] != t[j] {
        assert t[i] == s[i] && t[j] == s[j];
      }
    }
    if Distinct(t) && s[n - 1] !in t {
      forall i, j | 0 <= i < j < n ensures s[i] != s[j] {
        assert s[i] == t[i];
        if j < n - 1 {
          assert s[j] == t[j];
        }
      }
    }
  }

  /** Appending an element adds it to the set of elements. */
  lemma ElementsLast<T>(s: seq<T>)
    requires |s| >= 1
    ensures Elements(s) == Elements(s[..|s| - 1]) + {s[|s| - 1]}
  {
    FrontLast(s);
  }

  /** A sequence has at most as many distinct values as it has entries, and
      exactly as many when no value repeats. */
  lemma {:induction false} ElementsCard<T>(s: seq<T>)
    ensures |Elements(s)| <= |s|
    ensures |Elements(s)| == |s| <==> Distinct(s)
  {
    if s != [] {
      var t := s[..|s| - 1];
      var x := s[|s| - 1];
      ElementsCard(t);
      ElementsLast(s);
      DistinctLast(s);
      if x in t {
        assert x in Elements(t);
      } else {
        assert x !in Elements(t);
      }
    }
  }

  /** A non-empty sequence has at least one distinct value. */
  lemma ElementsNonEmpty<T>(s: seq<T>)
    requires |s| >= 1
    ensures |Elements(s)| >= 1
  {
    assert s[0] in Elements(s);
  }

  /** The pieces written one after another with `sep` between neighbours. */
  function JoinWith(sep: char, pieces: seq<string>): (r: string)
    requires |pieces| >= 1
    decreases |pieces|
  {
    if |pieces| == 1 then pieces[0]
    else JoinWith(sep, pieces[..|pieces| - 1]) + [sep] + pieces[|pieces| - 1]
  }

  /** A non-empty sequence is its front followed by its last element. */
  lemma FrontLast<T>(s: seq<T>)
    requires |s| >= 1
    ensures s[..|s| - 1] + [s[|s| - 1]] == s
  {
  }

  /** Appending a non-empty sequence is appending its front, then its last element. */
  lemma AppendLast<T>(a: seq<T>, b: seq<T>)
    requires |b| >= 1
    ensures a + b == (a + b[..|b| - 1]) + [b[|b| - 1]]
  {
    assert b == b[..|b| - 1] + [b[|b| - 1]];
  }
}
