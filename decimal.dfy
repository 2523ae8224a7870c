/** Decimal text of integers, as `%d` and `std::to_string` write it, and the
    comma-joined lists the geometry adders store. */
module Decimal {
  import opened Options

  predicate IsDigit(c: char) {
    '0' <= c <= '9'
  }

  predicate AllDigits(s: string) {
    forall i :: 0 <= i < |s| ==> IsDigit(s[i])
  }

  function DigitChar(d: nat): (c: char)
    requires d < 10
    ensures IsDigit(c)
  {
    ('0' as int + d) as char
  }

  function DigitValue(c: char): nat
    requires IsDigit(c)
  {
    c as int - '0' as int
  }

  /** The number a string of digits denotes, read most significant first. */
  function Value(s: string): nat
    requires AllDigits(s)
  {
    if s == [] then 0 else Value(s[..|s| - 1]) * 10 + DigitValue(s[|s| - 1])
  }

  /** The decimal digits of `n`, without leading zeros. */
  function FormatNat(n: nat): (r: string)
    ensures |r| >= 1
  {
    if n < 10 then [DigitChar(n)] else FormatNat(n / 10) + [DigitChar(n % 10)]
  }

  /** `%d`: a minus sign for a negative number, then its digits. */
  function FormatInt(n: int): (r: string)
    ensures |r| >= 1
  {
    if n < 0 then "-" + FormatNat(-n) else FormatNat(n)
  }

  /** Reading a decimal integer back: an optional minus sign, then one or
      more digits, and nothing else. */
  function ParseInt(s: string): Option<int> {
    if s != [] && s[0] == '-' then
      if |s| > 1 && AllDigits(s[1..]) then Some(0 - Value(s[1..]) as int) else None
    else if s != [] && AllDigits(s) then Some(Value(s) as int)
    else None
  }

  /** The digits of `n` are digits, the first is not a zero unless `n` is,
      and they denote `n`. */
  lemma {:induction false} FormatNatValue(n: nat)
    ensures AllDigits(FormatNat(n))
    ensures FormatNat(n)[0] == '0' ==> n == 0
    ensures Value(FormatNat(n)) == n
    decreases n
  {
    if n >= 10 {
      var s := FormatNat(n / 10);
      FormatNatValue(n / 10);
      var r := s + [DigitChar(n % 10)];
      assert r[..|r| - 1] == s;
      assert r[0] == s[0];
    } else {
      assert [DigitChar(n)][..0] == [];
    }
  }

  /** Reading the decimal text of any integer gives that integer back. */
  lemma ParseFormat(n: int)
    ensures ParseInt(FormatInt(n)) == Some(n)
  {
    if n < 0 {
      FormatNatValue(-n);
      var s := "-" + FormatNat(-n);
      assert s[1..] == FormatNat(-n);
    } else {
      FormatNatValue(n);
    }
  }

  /** The decimal text of an integer holds only digits and the minus sign. */
  lemma FormatChars(n: int)
    ensures forall k :: 0 <= k < |FormatInt(n)| ==> IsDigit(FormatInt(n)[k]) || FormatInt(n)[k] == '-'
  {
    FormatNatValue(if n < 0 then -n else n);
    forall k | 0 <= k < |FormatInt(n)|
      ensures IsDigit(FormatInt(n)[k]) || FormatInt(n)[k] == '-'
    {
      if n < 0 && k > 0 {
        assert FormatInt(n)[k] == FormatNat(-n)[k - 1];
      }
    }
  }

  // ---------------------------------------------------------------------
  // Separated lists

  /** The parts written one after the other with `sep` between them. */
  function Join(parts: seq<string>, sep: char): string {
    if parts == [] then []
    else if |parts| == 1 then parts[0]
    else parts[0] + [sep] + Join(parts[1..], sep)
  }

  /** The text cut at every `sep`: one more part than there are separators. */
  function Split(s: string, sep: char): (r: seq<string>)
    ensures |r| >= 1
  {
    if s == [] then [[]]
    else
      var rest := Split(s[1..], sep);
      if s[0] == sep then [[]] + rest else [[s[0]] + rest[0]] + rest[1..]
  }

  /** A text without the separator is a single part. */
  lemma {:induction false} SplitWhole(p: string, sep: char)
    requires sep !in p
    ensures Split(p, sep) == [p]
    decreases |p|
  {
    if p != [] {
      SplitWhole(p[1..], sep);
      assert [p[0]] + p[1..] == p;
    }
  }

  /** A first part without the separator, then the separator, is cut off
      as the first part. */
  lemma {:induction false} SplitFirst(p: string, sep: char, t: string)
    requires sep !in p
    ensures Split(p + [sep] + t, sep) == [p] + Split(t, sep)
    decreases |p|
  {
    var s := p + [sep] + t;
    if p == [] {
      assert s[0] == sep && s[1..] == t;
    } else {
      assert s[0] == p[0] && s[1..] == p[1..] + [sep] + t;
      SplitFirst(p[1..], sep, t);
      assert [p[0]] + p[1..] == p;
    }
  }

  /** Splitting undoes joining when no part holds the separator. */
  lemma {:induction false} SplitJoin(parts: seq<string>, sep: char)
    requires |parts| >= 1
    requires forall i :: 0 <= i < |parts| ==> sep !in parts[i]
    ensures Split(Join(parts, sep), sep) == parts
    decreases |parts|
  {
    if |parts| == 1 {
      SplitWhole(parts[0], sep);
    } else {
      SplitFirst(parts[0], sep, Join(parts[1..], sep));
      SplitJoin(parts[1..], sep);
    }
  }

  /** The decimal texts of some integers, comma-joined: what the geometry
      adders store for a rectangle, a point or a size. */
  function GeometryText(g: seq<int>): string {
    Join(FormatAll(g), ',')
  }

  function FormatAll(g: seq<int>): (r: seq<string>)
    ensures |r| == |g|
    ensures forall i :: 0 <= i < |g| ==> r[i] == FormatInt(g[i])
  {
    if g == [] then [] else [FormatInt(g[0])] + FormatAll(g[1..])
  }

  /** The stored geometry text cuts back at its commas into the decimal
      texts of the integers, each of which reads back as its integer. */
  lemma GeometrySplits(g: seq<int>)
    requires |g| >= 1
    ensures Split(GeometryText(g), ',') == FormatAll(g)
    ensures forall i :: 0 <= i < |g| ==> ParseInt(Split(GeometryText(g), ',')[i]) == Some(g[i])
  {
    forall i | 0 <= i < |g| ensures ',' !in FormatAll(g)[i] {
      FormatChars(g[i]);
    }
    SplitJoin(FormatAll(g), ',');
    forall i | 0 <= i < |g| ensures ParseInt(FormatAll(g)[i]) == Some(g[i]) {
      ParseFormat(g[i]);
    }
  }
}
