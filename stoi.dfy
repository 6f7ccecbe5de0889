/** `std::stoi` on base 10, as the distance clauses use it: leading white
    space is skipped, one optional sign is read, then the longest run of
    decimal digits; anything after the digits is ignored. No digits, or a
    value outside a 32-bit `int`, makes `std::stoi` throw, which is `None`
    here. */
module Stoi {
  import opened Wrappers

  const INT_MIN: int := -0x8000_0000
  const INT_MAX: int := 0x7FFF_FFFF

  predicate IsDigit(c: char)
  {
    '0' <= c <= '9'
  }

  /** The characters `isspace` accepts in the C locale. */
  predicate IsSpace(c: char)
  {
    c == ' ' || c == '\t' || c == '\n' || c == '\U{000B}' || c == '\U{000C}' || c == '\r'
  }

  predicate AllDigits(s: string)
  {
    forall i :: 0 <= i < |s| ==> IsDigit(s[i])
  }

  /** `s` without its leading white space. */
  function SkipSpaces(s: string): (r: string)
    ensures |r| <= |s| && r == s[|s| - |r|..]
    ensures r == [] || !IsSpace(r[0])
  {
    if s != [] && IsSpace(s[0]) then SkipSpaces(s[1..]) else s
  }

  /** The longest prefix of `s` made of decimal digits. */
  function LeadingDigits(s: string): (r: string)
    ensures |r| <= |s| && r == s[..|r|]
    ensures AllDigits(r)
    ensures |r| == |s| || !IsDigit(s[|r|])
  {
    if s != [] && IsDigit(s[0]) then [s[0]] + LeadingDigits(s[1..]) else []
  }

  /** The number a string of decimal digits denotes. */
  function DigitsValue(ds: string): nat
    requires AllDigits(ds)
  {
    if ds == [] then 0
    else DigitsValue(ds[..|ds| - 1]) * 10 + (ds[|ds| - 1] as int - '0' as int)
  }

  /** The value `std::stoi(s)` returns, or `None` where it throws
      `std::invalid_argument` (no digits) or `std::out_of_range`. */
  function StoI(s: string): (r: Option<int>)
  {
    var t := SkipSpaces(s);
    var negative := t != [] && t[0] == '-';
    var u := if t != [] && (t[0] == '-' || t[0] == '+') then t[1..] else t;
    var ds := LeadingDigits(u);
    if ds == [] then None
    else
      var v: int := if negative then -(DigitsValue(ds) as int) else DigitsValue(ds);
      if INT_MIN <= v <= INT_MAX then Some(v) else None
  }

  /** The decimal numeral of `n`, without sign or leading zeros. */
  function Decimal(n: nat): (r: string)
    ensures |r| >= 1 && AllDigits(r)
  {
    if n < 10 then [('0' as int + n) as char]
    else Decimal(n / 10) + [('0' as int + n % 10) as char]
  }

  /** Reading back a numeral gives the number it was written from. */
  lemma {:induction false} DecimalValue(n: nat)
    ensures DigitsValue(Decimal(n)) == n
  {
    var d := Decimal(n);
    if n >= 10 {
      DecimalValue(n / 10);
      assert d[..|d| - 1] == Decimal(n / 10);
    } else {
      assert d[..|d| - 1] == [];
    }
  }

  /** The digit run at the front of `ds + rest` is `ds` when `rest` does not
      start with a digit. */
  lemma {:induction false} LeadingDigitsOf(ds: string, rest: string)
    requires AllDigits(ds)
    requires rest == [] || !IsDigit(rest[0])
    ensures LeadingDigits(ds + rest) == ds
  {
    if ds != [] {
      LeadingDigitsOf(ds[1..], rest);
      assert (ds + rest)[1..] == ds[1..] + rest;
    }
  }

  /** Text that starts with neither white space nor a sign is read as its
      leading digits. */
  lemma StoIUnsigned(s: string)
    requires s != [] && !IsSpace(s[0]) && s[0] != '-' && s[0] != '+'
    ensures var ds := LeadingDigits(s);
      StoI(s) == if ds == [] then None else if DigitsValue(ds) <= INT_MAX then Some(DigitsValue(ds)) else None
  {
    assert SkipSpaces(s) == s;
  }

  /** A run of digits whose value fits is read as that value, whatever
      non-digit text follows it. */
  lemma StoIOfDigits(ds: string, rest: string)
    requires |ds| >= 1 && AllDigits(ds) && DigitsValue(ds) <= INT_MAX
    requires rest == [] || !IsDigit(rest[0])
    ensures StoI(ds + rest) == Some(DigitsValue(ds))
  {
    var s := ds + rest;
    assert s[0] == ds[0] && IsDigit(ds[0]);
    StoIUnsigned(s);
    LeadingDigitsOf(ds, rest);
  }

  /** `std::stoi` inverts `Decimal` on every non-negative `int`, whatever
      non-digit text follows the numeral. */
  lemma StoIDecimal(n: nat, rest: string)
    requires n <= INT_MAX
    requires rest == [] || !IsDigit(rest[0])
    ensures StoI(Decimal(n) + rest) == Some(n)
  {
    DecimalValue(n);
    StoIOfDigits(Decimal(n), rest);
  }

  /** Text that starts with a minus sign, then digits whose value fits, is
      read as that value negated. */
  lemma StoIMinus(s: string, ds: string)
    requires s != [] && s[0] == '-'
    requires ds == LeadingDigits(s[1..]) && ds != [] && DigitsValue(ds) <= -INT_MIN
    ensures StoI(s) == Some(-(DigitsValue(ds) as int))
  {
    assert SkipSpaces(s) == s;
  }

  /** A minus sign then a run of digits whose value fits is read as that
      value negated. */
  lemma StoIOfNegatedDigits(ds: string, rest: string)
    requires |ds| >= 1 && AllDigits(ds) && DigitsValue(ds) <= -INT_MIN
    requires rest == [] || !IsDigit(rest[0])
    ensures StoI(['-'] + ds + rest) == Some(-(DigitsValue(ds) as int))
  {
    var tail := ds + rest;
    var s := ['-'] + tail;
    assert s == ['-'] + ds + rest;
    assert s[0] == '-' && s[1..] == tail;
    LeadingDigitsOf(ds, rest);
    StoIMinus(s, ds);
  }

  /** A leading minus sign negates the value read. */
  lemma StoINegative(n: nat, rest: string)
    requires n <= -INT_MIN
    requires rest == [] || !IsDigit(rest[0])
    ensures StoI(['-'] + Decimal(n) + rest) == Some(-(n as int))
  {
    var ds := Decimal(n);
    DecimalValue(n);
    assert DigitsValue(ds) == n;
    StoIOfNegatedDigits(ds, rest);
    assert StoI(['-'] + ds + rest) == Some(-(n as int));
  }
}
