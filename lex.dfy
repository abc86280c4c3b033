/** Lexicographic order on strings: how PHP compares two non-numeric strings with
    `<`, `>=`, and how a SQL `MAX` or `ORDER BY` ranks text columns under a binary collation. */
module Lex {

  /** `a` sorts at or before `b`: characters are compared left to right and a proper prefix
      sorts first. */
  predicate Le(a: string, b: string) {
    if a == [] then true
    else if b == [] then false
    else a[0] < b[0] || (a[0] == b[0] && Le(a[1..], b[1..]))
  }

  predicate Lt(a: string, b: string) {
    Le(a, b) && a != b
  }

  lemma {:induction false} Reflexive(a: string)
    ensures Le(a, a)
  {
    if a != [] {
      Reflexive(a[1..]);
    }
  }

  lemma {:induction false} Antisymmetric(a: string, b: string)
    requires Le(a, b) && Le(b, a)
    ensures a == b
  {
    if a != [] && b != [] {
      Antisymmetric(a[1..], b[1..]);
      assert a == [a[0]] + a[1..];
      assert b == [b[0]] + b[1..];
    }
  }

  lemma {:induction false} Transitive(a: string, b: string, c: string)
    requires Le(a, b) && Le(b, c)
    ensures Le(a, c)
  {
    if a != [] && b != [] && c != [] && a[0] == b[0] == c[0] {
      Transitive(a[1..], b[1..], c[1..]);
    }
  }

  lemma {:induction false} Total(a: string, b: string)
    ensures Le(a, b) || Le(b, a)
  {
    if a != [] && b != [] && a[0] == b[0] {
      Total(a[1..], b[1..]);
    }
  }

  /** Comparing two strings whose first parts have equal length: the first parts decide,
      unless they are equal, in which case the rest decides. */
  lemma {:induction false} LeConcat(x: string, y: string, x': string, y': string)
    requires |x| == |x'|
    ensures Le(x + y, x' + y') <==> Lt(x, x') || (x == x' && Le(y, y'))
  {
    if x != [] {
      assert (x + y)[0] == x[0] && (x' + y')[0] == x'[0];
      assert (x + y)[1..] == x[1..] + y;
      assert (x' + y')[1..] == x'[1..] + y';
      LeConcat(x[1..], y, x'[1..], y');
      assert Le(x, x') == (x[0] < x'[0] || (x[0] == x'[0] && Le(x[1..], x'[1..])));
      assert Le(x + y, x' + y') ==
        (x[0] < x'[0] || (x[0] == x'[0] && Le(x[1..] + y, x'[1..] + y')));
      assert x == [x[0]] + x[1..];
      assert x' == [x'[0]] + x'[1..];
      if x[0] == x'[0] {
        assert x == x' <==> x[1..] == x'[1..];
        assert Lt(x, x') <==> Lt(x[1..], x'[1..]);
      } else if x[0] < x'[0] {
        assert x != x';
        assert Lt(x, x');
      } else {
        assert x != x';
      }
    } else {
      assert x + y == y && x' + y' == y';
    }
  }
}
