/** Calendar days in the `YYYY-MM-DD` text form the source validates, stores and
    compares as strings. */
module Days {
  import Lex

  predicate IsDigit(c: char) {
    '0' <= c <= '9'
  }

  predicate AllDigits(s: string) {
    forall i :: 0 <= i < |s| ==> IsDigit(s[i])
  }

  /** `s` has the shape `\d{4}-\d{2}-\d{2}` and nothing more. Like the source's regular
      expression it checks the shape only, not the month or day ranges. */
  predicate IsDay(s: string) {
    && |s| == 10
    && AllDigits(s[..4]) && s[4] == '-'
    && AllDigits(s[5..7]) && s[7] == '-'
    && AllDigits(s[8..])
  }

  /** What `preg_match('/^\d{4}-\d{2}-\d{2}$/', s)` accepts: without the `D` modifier,
      PCRE's `$` also matches just before a final newline. */
  predicate PhpDayPatternAsWritten(s: string) {
    IsDay(s) || (|s| == 11 && IsDay(s[..10]) && s[10] == '\n')
  }

  /** The pattern as written lets a string with a trailing newline through. */
  lemma TrailingNewlinePassesPattern()
    ensures PhpDayPatternAsWritten("2024-01-05\n")
    ensures !IsDay("2024-01-05\n")
  {
    assert "2024-01-05\n"[..10] == "2024-01-05";
  }

  /** The anchored pattern (what `IsDay` states) accepts exactly ten characters,
      none of them a newline. */
  lemma {:induction false} DayPatternAnchored(s: string)
    requires IsDay(s)
    ensures |s| == 10 && forall i :: 0 <= i < |s| ==> s[i] != '\n'
  {
    forall i | 0 <= i < |s| ensures s[i] != '\n' {
      if i < 4 {
        assert s[..4][i] == s[i];
      } else if 5 <= i < 7 {
        assert s[5..7][i - 5] == s[i];
      } else if 8 <= i {
        assert s[8..][i - 8] == s[i];
      }
    }
  }

  function DigitValue(c: char): nat
    requires IsDigit(c)
  {
    c as int - '0' as int
  }

  function Pow10(n: nat): (p: nat)
    ensures p >= 1
  {
    if n == 0 then 1 else 10 * Pow10(n - 1)
  }

  /** The number a string of decimal digits denotes. */
  function Value(s: string): (v: nat)
    requires AllDigits(s)
    ensures v < Pow10(|s|)
  {
    if s == [] then 0
    else
      var d, p, rest := DigitValue(s[0]), Pow10(|s| - 1), Value(s[1..]);
      DigitTimesPow(d, p, rest);
      d * p + rest
  }

  lemma DigitTimesPow(d: nat, p: nat, rest: nat)
    requires d <= 9 && rest < p
    ensures d * p + rest < 10 * p
  {
    assert d * p <= 9 * p;
  }

  function Year(s: string): nat
    requires IsDay(s)
  {
    Value(s[..4])
  }

  function Month(s: string): nat
    requires IsDay(s)
  {
    Value(s[5..7])
  }

  function DayOfMonth(s: string): nat
    requires IsDay(s)
  {
    Value(s[8..])
  }

  /** Chronological order: by year, then month, then day of the month. */
  predicate ChronoLe(a: string, b: string)
    requires IsDay(a) && IsDay(b)
  {
    || Year(a) < Year(b)
    || (Year(a) == Year(b) && Month(a) < Month(b))
    || (Year(a) == Year(b) && Month(a) == Month(b) && DayOfMonth(a) <= DayOfMonth(b))
  }

  lemma {:induction false} PowBound(d: nat, d': nat, p: nat, r: nat, r': nat)
    requires d < d' && r < p && r' < p
    ensures d * p + r < d' * p + r'
  {
    var k: nat := d' - d - 1;
    var kp: nat := k * p;
    assert d' * p == d * p + p + kp;
  }

  /** For digit strings of equal length, string order is numeric order. */
  lemma {:induction false} DigitsLe(a: string, b: string)
    requires AllDigits(a) && AllDigits(b) && |a| == |b|
    ensures Lex.Le(a, b) <==> Value(a) <= Value(b)
  {
    if a != [] {
      var p := Pow10(|a| - 1);
      var da, db := DigitValue(a[0]), DigitValue(b[0]);
      DigitsLe(a[1..], b[1..]);
      if da < db {
        PowBound(da, db, p, Value(a[1..]), Value(b[1..]));
      } else if db < da {
        PowBound(db, da, p, Value(b[1..]), Value(a[1..]));
      }
    }
  }

  lemma {:induction false} DigitsLt(a: string, b: string)
    requires AllDigits(a) && AllDigits(b) && |a| == |b|
    ensures Lex.Lt(a, b) <==> Value(a) < Value(b)
  {
    DigitsLe(a, b);
    DigitsLe(b, a);
    Lex.Reflexive(a);
    if Lex.Le(a, b) && Lex.Le(b, a) {
      Lex.Antisymmetric(a, b);
    }
  }

  /** Comparing two days as strings, which is how the source compares them, agrees with
      comparing them as calendar dates. */
  lemma {:induction false} LexOrderIsChronological(a: string, b: string)
    requires IsDay(a) && IsDay(b)
    ensures Lex.Le(a, b) <==> ChronoLe(a, b)
  {
    assert a == a[..4] + a[4..] && b == b[..4] + b[4..];
    assert a[4..] == [a[4]] + a[5..] && b[4..] == [b[4]] + b[5..];
    assert a[5..] == a[5..7] + a[7..] && b[5..] == b[5..7] + b[7..];
    assert a[7..] == [a[7]] + a[8..] && b[7..] == [b[7]] + b[8..];
    Lex.LeConcat(a[..4], a[4..], b[..4], b[4..]);
    Lex.LeConcat([a[4]], a[5..], [b[4]], b[5..]);
    Lex.LeConcat(a[5..7], a[7..], b[5..7], b[7..]);
    Lex.LeConcat([a[7]], a[8..], [b[7]], b[8..]);
    DigitsLt(a[..4], b[..4]);
    DigitsLt(a[5..7], b[5..7]);
    DigitsLe(a[8..], b[8..]);
    DigitsLt(a[..4], a[..4]);
    DigitsLt(a[5..7], a[5..7]);
    DigitsEqual(a[..4], b[..4]);
    DigitsEqual(a[5..7], b[5..7]);
  }

  lemma {:induction false} DigitsEqual(a: string, b: string)
    requires AllDigits(a) && AllDigits(b) && |a| == |b|
    ensures a == b <==> Value(a) == Value(b)
  {
    DigitsLe(a, b);
    DigitsLe(b, a);
    if Lex.Le(a, b) && Lex.Le(b, a) {
      Lex.Antisymmetric(a, b);
    }
  }
}
