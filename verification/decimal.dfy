/** Decimal text of unsigned integers, as Rust's `to_string` and `format!("{}")`
    write it, together with the reading a receiver applies to it. */
module Decimal {
  import opened Common

  predicate IsDigit(c: char) {
    '0' <= c <= '9'
  }

  predicate AllDigits(s: string) {
    forall i :: 0 <= i < |s| ==> IsDigit(s[i])
  }

  /** The shape `to_string` produces: one or more digits, no leading zero
      unless the number is zero itself. */
  predicate Canonical(s: string) {
    |s| >= 1 && AllDigits(s) && (|s| > 1 ==> s[0] != '0')
  }

  function DigitChar(d: nat): (c: char)
    requires d < 10
    ensures IsDigit(c)
  {
    "0123456789"[d]
  }

  function DigitValue(c: char): (d: nat)
    requires IsDigit(c)
    ensures d < 10 && DigitChar(d) == c
  {
    c as int - '0' as int
  }

  /** Shortest decimal text of `n`. */
  function Format(n: nat): (s: string)
    ensures Canonical(s)
    ensures n < 10 <==> |s| == 1
  {
    if n < 10 then [DigitChar(n)] else Format(n / 10) + [DigitChar(n % 10)]
  }

  /** The number a string of digits denotes, most significant digit first. */
  function Value(s: string): nat
    requires AllDigits(s)
  {
    if s == [] then 0 else Value(s[..|s| - 1]) * 10 + DigitValue(s[|s| - 1])
  }

  /** Reads back text written by `Format`; anything else is rejected. */
  function Parse(s: string): (r: Option<nat>)
    ensures r.Some? <==> Canonical(s)
  {
    if Canonical(s) then Some(Value(s)) else None
  }

  lemma {:induction false} ValueOfFormat(n: nat)
    ensures Value(Format(n)) == n
  {
    if n >= 10 {
      var s := Format(n);
      assert s[..|s| - 1] == Format(n / 10);
      ValueOfFormat(n / 10);
    }
  }

  /** Every number is read back from its own decimal text. */
  lemma ParseFormat(n: nat)
    ensures Parse(Format(n)) == Some(n)
  {
    ValueOfFormat(n);
  }

  /** A canonical text of two or more digits denotes a number of at least 10. */
  lemma {:induction false} LongCanonicalValue(s: string)
    requires Canonical(s) && |s| > 1
    ensures Value(s) >= 10
  {
    var p := s[..|s| - 1];
    assert p[0] == s[0];
    if |p| > 1 {
      LongCanonicalValue(p);
    } else {
      assert p[..|p| - 1] == [];
      assert Value(p) == DigitValue(p[0]);
    }
  }

  /** Every text that `Parse` accepts is the one `Format` writes for its value,
      so `Format` and `Parse` are inverse on canonical decimal text. */
  lemma {:induction false} FormatParse(s: string)
    requires Parse(s).Some?
    ensures Format(Parse(s).value) == s
  {
    var n := Value(s);
    if |s| == 1 {
      assert s[..|s| - 1] == [];
      assert Value(s[..|s| - 1]) == 0;
      assert n == Value(s[..|s| - 1]) * 10 + DigitValue(s[|s| - 1]);
      assert n == DigitValue(s[0]);
    } else {
      var p := s[..|s| - 1];
      assert p[0] == s[0];
      LongCanonicalValue(s);
      assert n / 10 == Value(p) && n % 10 == DigitValue(s[|s| - 1]);
      FormatParse(p);
      assert s == p + [s[|s| - 1]];
    }
  }

  /** Different numbers have different decimal texts. */
  lemma FormatInjective(m: nat, n: nat)
    requires Format(m) == Format(n)
    ensures m == n
  {
    ParseFormat(m);
    ParseFormat(n);
  }
}
