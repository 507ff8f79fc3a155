/**
 * Decimal text as the autosave code reads and writes it: `std::stoi` (as
 * the Microsoft C++ library implements it, over `strtol` with a 32-bit
 * `long`) for the configured interval, and the zero-padded fields that
 * `strftime` writes into a backup directory's name.
 */
module Decimal {
  import opened Wrappers
  import opened Host

  predicate IsDigit(c: char) { '0' <= c <= '9' }

  function DigitValue(c: char): (d: nat)
    requires IsDigit(c)
    ensures d < 10
  {
    c as int - '0' as int
  }

  function DigitChar(d: nat): (c: char)
    requires d < 10
    ensures IsDigit(c) && DigitValue(c) == d
  {
    ('0' as int + d) as char
  }

  predicate AllDigits(s: string) { forall i :: 0 <= i < |s| ==> IsDigit(s[i]) }

  /** The number a string of digits denotes, most significant digit first. */
  function DigitsValue(s: string): nat
    requires AllDigits(s)
  {
    if s == [] then 0 else 10 * DigitsValue(s[..|s| - 1]) + DigitValue(s[|s| - 1])
  }

  /** The shortest decimal spelling of `n` (`std::to_string`, `%d`). */
  function DecimalString(n: nat): (s: string)
    ensures 1 <= |s| && AllDigits(s)
    ensures DigitsValue(s) == n
    ensures 1 < |s| ==> s[0] != '0'
  {
    if n < 10 then [DigitChar(n)]
    else
      var prefix := DecimalString(n / 10);
      var s := prefix + [DigitChar(n % 10)];
      assert s[..|s| - 1] == prefix;
      s
  }

  /** A field padded to two digits with leading zeros (`%m`, `%d`, `%H`, `%M`, `%S`). */
  function TwoDigits(n: nat): (s: string)
    requires n < 100
    ensures |s| == 2 && AllDigits(s) && DigitsValue(s) == n
  {
    var s := [DigitChar(n / 10), DigitChar(n % 10)];
    assert s[..1] == [DigitChar(n / 10)];
    assert DigitsValue(s[..1][..0]) == 0;
    s
  }

  /** A four-digit year (`%Y` for the years 1000 to 9999). */
  function FourDigits(n: nat): (s: string)
    requires 1000 <= n < 10000
    ensures |s| == 4 && AllDigits(s) && DigitsValue(s) == n
  {
    var hi := TwoDigits(n / 100);
    var lo := TwoDigits(n % 100);
    var s := hi + lo;
    assert s[..3] == hi + lo[..1];
    assert s[..3][..2] == hi;
    assert lo[..1][..0] == [];
    s
  }

  /** The characters C's `isspace` accepts: space, tab, newline, vertical tab, form feed, carriage return. */
  predicate IsSpace(c: char) { c == ' ' || 9 <= c as int <= 13 }

  /** What is left once the leading white space is skipped. */
  function SkipSpaces(s: string): (r: string)
    ensures |r| <= |s| && r == s[|s| - |r|..]
    ensures r != [] ==> !IsSpace(r[0])
    ensures forall i :: 0 <= i < |s| - |r| ==> IsSpace(s[i])
  {
    if s != [] && IsSpace(s[0]) then
      var r := SkipSpaces(s[1..]);
      assert s[1..][|s| - 1 - |r|..] == s[|s| - |r|..];
      assert forall i :: 1 <= i < |s| - |r| ==> s[i] == s[1..][i - 1];
      r
    else s
  }

  /** The longest prefix of `s` made of digits. */
  function LeadingDigits(s: string): (r: string)
    ensures AllDigits(r) && r <= s
    ensures |r| < |s| ==> !IsDigit(s[|r|])
  {
    if s != [] && IsDigit(s[0]) then [s[0]] + LeadingDigits(s[1..]) else []
  }

  const IntMin: int := -0x8000_0000
  const IntMax: int := 0x7FFF_FFFF

  /**
   * What `std::stoi` reads once the white space is skipped: an optional sign
   * and the longest run of decimal digits after it; anything after the
   * digits is ignored. No digit at all throws `std::invalid_argument`, a
   * value outside the 32-bit range throws `std::out_of_range`; both are
   * `None` here.
   */
  function ReadNumber(t: string): (r: Option<int32>)
    ensures r.Some? ==> exists i :: 0 <= i < |t| && IsDigit(t[i])
  {
    var signed := t != [] && (t[0] == '+' || t[0] == '-');
    var u := if signed then t[1..] else t;
    var digits := LeadingDigits(u);
    if digits == [] then None
    else
      assert IsDigit(t[|t| - |u|]) by { assert u == t[|t| - |u|..]; }
      var v: int := if signed && t[0] == '-' then -(DigitsValue(digits) as int) else DigitsValue(digits);
      if IntMin <= v <= IntMax then Some(v) else None
  }

  /** `std::stoi(s)`: skip the leading white space, then read a number. */
  function Stoi(s: string): (r: Option<int32>)
    ensures r.Some? ==> exists i :: 0 <= i < |s| && IsDigit(s[i])
  {
    var t := SkipSpaces(s);
    assert ReadNumber(t).Some? ==> exists i :: 0 <= i < |s| && IsDigit(s[i]) by {
      if ReadNumber(t).Some? {
        var i :| 0 <= i < |t| && IsDigit(t[i]);
        assert s[|s| - |t| + i] == t[i];
      }
    }
    ReadNumber(t)
  }

  /** The digits at the front of `ds + rest` are exactly `ds` when `rest` does not start with one. */
  lemma {:induction false} AllDigitsPrefix(ds: string, rest: string)
    requires AllDigits(ds)
    requires rest == [] || !IsDigit(rest[0])
    ensures LeadingDigits(ds + rest) == ds
  {
    if ds == [] {
      assert ds + rest == rest;
    } else {
      assert (ds + rest)[1..] == ds[1..] + rest;
      AllDigitsPrefix(ds[1..], rest);
    }
  }

  /**
   * Any run of decimal digits followed by non-digit text reads as its value,
   * or throws `std::out_of_range` when that value exceeds the 32-bit range.
   */
  lemma StoiReadsDigits(ds: string, rest: string)
    requires ds != [] && AllDigits(ds)
    requires rest == [] || !IsDigit(rest[0])
    ensures DigitsValue(ds) <= IntMax ==> Stoi(ds + rest) == Some(DigitsValue(ds))
    ensures IntMax < DigitsValue(ds) ==> Stoi(ds + rest) == None
  {
    var t := ds + rest;
    assert t[0] == ds[0] && IsDigit(t[0]);
    assert SkipSpaces(t) == t;
    assert LeadingDigits(t) == ds by { AllDigitsPrefix(ds, rest); }
    ReadNumberUnsigned(t, ds);
  }

  /** Unfolds `ReadNumber` for text that starts with its digits. */
  lemma ReadNumberUnsigned(t: string, ds: string)
    requires t != [] && t[0] != '+' && t[0] != '-'
    requires ds != [] && AllDigits(ds) && LeadingDigits(t) == ds
    ensures DigitsValue(ds) <= IntMax ==> ReadNumber(t) == Some(DigitsValue(ds))
    ensures IntMax < DigitsValue(ds) ==> ReadNumber(t) == None
  {
  }

  /**
   * `std::stoi` reads back every decimal spelling of an `int`, whatever
   * non-digit text follows it ("10 minutes" reads as 10).
   */
  lemma StoiReadsDecimal(n: nat, rest: string)
    requires n <= IntMax
    requires rest == [] || !IsDigit(rest[0])
    ensures Stoi(DecimalString(n) + rest) == Some(n)
  {
    StoiReadsDigits(DecimalString(n), rest);
  }

  /**
   * A decimal spelling beyond the 32-bit range makes `std::stoi` throw
   * `std::out_of_range`, whatever non-digit text follows it.
   */
  lemma StoiRejectsTooLarge(n: nat, rest: string)
    requires IntMax < n
    requires rest == [] || !IsDigit(rest[0])
    ensures Stoi(DecimalString(n) + rest) == None
  {
    StoiReadsDigits(DecimalString(n), rest);
  }

  /** Text that starts with neither white space, a sign nor a digit does not read. */
  lemma StoiRejectsNonDigit(s: string)
    requires s == [] || (!IsSpace(s[0]) && s[0] != '+' && s[0] != '-' && !IsDigit(s[0]))
    ensures Stoi(s) == None
  {
    assert SkipSpaces(s) == s;
    assert s == [] || LeadingDigits(s) == [];
  }

  /** Unfolds `ReadNumber` for text that starts with a minus sign and then its digits. */
  lemma ReadNumberMinus(t: string, ds: string)
    requires t != [] && t[0] == '-'
    requires ds != [] && AllDigits(ds) && LeadingDigits(t[1..]) == ds
    ensures DigitsValue(ds) <= -IntMin ==> ReadNumber(t) == Some(-(DigitsValue(ds) as int))
    ensures -IntMin < DigitsValue(ds) ==> ReadNumber(t) == None
  {
  }

  /** Unfolds `ReadNumber` for text that starts with a plus sign and then its digits. */
  lemma ReadNumberPlus(t: string, ds: string)
    requires t != [] && t[0] == '+'
    requires ds != [] && AllDigits(ds) && LeadingDigits(t[1..]) == ds
    ensures DigitsValue(ds) <= IntMax ==> ReadNumber(t) == Some(DigitsValue(ds))
    ensures IntMax < DigitsValue(ds) ==> ReadNumber(t) == None
  {
  }

  /**
   * A minus sign followed by a run of digits and then non-digit text reads
   * as the negated value, or throws `std::out_of_range` below -2147483648.
   */
  lemma StoiReadsMinusDigits(ds: string, rest: string)
    requires ds != [] && AllDigits(ds)
    requires rest == [] || !IsDigit(rest[0])
    ensures DigitsValue(ds) <= -IntMin ==> Stoi("-" + ds + rest) == Some(-(DigitsValue(ds) as int))
    ensures -IntMin < DigitsValue(ds) ==> Stoi("-" + ds + rest) == None
  {
    var t := "-" + ds + rest;
    assert SkipSpaces(t) == t by { assert t[0] == '-'; }
    assert LeadingDigits(t[1..]) == ds by {
      assert t[1..] == ds + rest;
      AllDigitsPrefix(ds, rest);
    }
    ReadNumberMinus(t, ds);
  }

  /** A plus sign in front of a run of digits changes nothing. */
  lemma StoiReadsPlusDigits(ds: string, rest: string)
    requires ds != [] && AllDigits(ds)
    requires rest == [] || !IsDigit(rest[0])
    ensures DigitsValue(ds) <= IntMax ==> Stoi("+" + ds + rest) == Some(DigitsValue(ds))
    ensures IntMax < DigitsValue(ds) ==> Stoi("+" + ds + rest) == None
  {
    var t := "+" + ds + rest;
    assert SkipSpaces(t) == t by { assert t[0] == '+'; }
    assert LeadingDigits(t[1..]) == ds by {
      assert t[1..] == ds + rest;
      AllDigitsPrefix(ds, rest);
    }
    ReadNumberPlus(t, ds);
  }

  /** Skipping a run of white space reaches the first character that is not one. */
  lemma {:induction false} SkipSpacesPrefix(sp: string, x: string)
    requires forall i :: 0 <= i < |sp| ==> IsSpace(sp[i])
    requires x == [] || !IsSpace(x[0])
    ensures SkipSpaces(sp + x) == x
  {
    if sp == [] {
      assert sp + x == x;
    } else {
      assert (sp + x)[1..] == sp[1..] + x;
      SkipSpacesPrefix(sp[1..], x);
    }
  }

  /** Leading white space does not change what `std::stoi` reads. */
  lemma StoiSkipsSpaces(sp: string, x: string)
    requires forall i :: 0 <= i < |sp| ==> IsSpace(sp[i])
    requires x == [] || !IsSpace(x[0])
    ensures Stoi(sp + x) == Stoi(x)
  {
    SkipSpacesPrefix(sp, x);
    assert SkipSpaces(x) == x;
  }
}
