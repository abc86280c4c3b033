/** Ordering rows the way the source's `ORDER BY` clauses and JavaScript `sort` calls do:
    by a text column (a day or a timestamp) and then, where the source breaks ties, by a
    number. */
module Sorting {
  import Lex

  datatype Key = Key(text: string, rank: int)

  predicate KeyLe(a: Key, b: Key) {
    Lex.Lt(a.text, b.text) || (a.text == b.text && a.rank <= b.rank)
  }

  lemma KeyTotal(a: Key, b: Key)
    ensures KeyLe(a, b) || KeyLe(b, a)
  {
    Lex.Total(a.text, b.text);
  }

  lemma KeyTransitive(a: Key, b: Key, c: Key)
    requires KeyLe(a, b) && KeyLe(b, c)
    ensures KeyLe(a, c)
  {
    Lex.Reflexive(a.text);
    Lex.Reflexive(b.text);
    Lex.Transitive(a.text, b.text, c.text);
    if a.text == c.text {
      Lex.Antisymmetric(a.text, b.text);
    }
  }

  /** Non-decreasing by key: rows that come first never have a larger key. */
  ghost predicate SortedBy<T>(s: seq<T>, key: T -> Key) {
    forall i, j :: 0 <= i < j < |s| ==> KeyLe(key(s[i]), key(s[j]))
  }

  /** Non-increasing by key. */
  ghost predicate SortedDescBy<T>(s: seq<T>, key: T -> Key) {
    forall i, j :: 0 <= i < j < |s| ==> KeyLe(key(s[j]), key(s[i]))
  }

  /** `x` placed before the first row it does not follow. */
  function Insert<T(==)>(x: T, s: seq<T>, key: T -> Key): seq<T> {
    if s == [] then [x]
    else if KeyLe(key(x), key(s[0])) then [x] + s
    else [s[0]] + Insert(x, s[1..], key)
  }

  lemma {:induction false} InsertSorted<T>(x: T, s: seq<T>, key: T -> Key)
    requires SortedBy(s, key)
    ensures SortedBy(Insert(x, s, key), key)
    ensures multiset(Insert(x, s, key)) == multiset(s) + multiset{x}
  {
    if s == [] {
    } else if KeyLe(key(x), key(s[0])) {
      forall j | 0 < j < |s| ensures KeyLe(key(x), key(s[j])) {
        KeyTransitive(key(x), key(s[0]), key(s[j]));
      }
      assert s == [s[0]] + s[1..];
    } else {
      InsertSorted(x, s[1..], key);
      KeyTotal(key(x), key(s[0]));
      HeadBelowInsert(x, s, key);
      assert s == [s[0]] + s[1..];
    }
  }

  /** The head of a sorted list that `x` does not precede comes before `x` inserted into its tail. */
  lemma HeadBelowInsert<T>(x: T, s: seq<T>, key: T -> Key)
    requires s != [] && SortedBy(s, key) && KeyLe(key(s[0]), key(x))
    requires multiset(Insert(x, s[1..], key)) == multiset(s[1..]) + multiset{x}
    ensures var rest := Insert(x, s[1..], key);
      forall k :: 0 <= k < |rest| ==> KeyLe(key(s[0]), key(rest[k]))
  {
    var rest := Insert(x, s[1..], key);
    forall k | 0 <= k < |rest| ensures KeyLe(key(s[0]), key(rest[k])) {
      assert rest[k] in multiset(rest);
      if rest[k] != x {
        assert rest[k] in multiset(s[1..]);
        var j :| 0 <= j < |s[1..]| && s[1..][j] == rest[k];
        assert s[j + 1] == rest[k];
      }
    }
  }

  /** Insertion sort by `key`. */
  function SortBy<T(==)>(s: seq<T>, key: T -> Key): seq<T> {
    if s == [] then [] else Insert(s[0], SortBy(s[1..], key), key)
  }

  /** Insertion sort gives the same rows, non-decreasing by key. */
  lemma {:induction false} SortBySorted<T>(s: seq<T>, key: T -> Key)
    ensures SortedBy(SortBy(s, key), key)
    ensures multiset(SortBy(s, key)) == multiset(s)
    ensures |SortBy(s, key)| == |s|
  {
    if s != [] {
      var rest := SortBy(s[1..], key);
      SortBySorted(s[1..], key);
      InsertSorted(s[0], rest, key);
      assert SortBy(s, key) == Insert(s[0], rest, key);
      assert multiset(s) == multiset(s[1..]) + multiset{s[0]} by {
        assert s == [s[0]] + s[1..];
      }
    }
    assert |multiset(SortBy(s, key))| == |multiset(s)|;
  }

  function Reverse<T>(s: seq<T>): (r: seq<T>)
    ensures |r| == |s|
    ensures forall i :: 0 <= i < |s| ==> r[i] == s[|s| - 1 - i]
  {
    if s == [] then [] else Reverse(s[1..]) + [s[0]]
  }

  lemma {:induction false} ReverseMultiset<T>(s: seq<T>)
    ensures multiset(Reverse(s)) == multiset(s)
  {
    if s != [] {
      ReverseMultiset(s[1..]);
      assert s == [s[0]] + s[1..];
    }
  }

  /** Every row of a slice of a permutation of `s` is a row of `s`. */
  lemma SliceFrom<T>(all: seq<T>, s: seq<T>, from: nat, to: nat)
    requires multiset(all) == multiset(s) && from <= to <= |all|
    ensures forall i :: 0 <= i < to - from ==> all[from..to][i] in s
  {
    forall i | 0 <= i < to - from ensures all[from..to][i] in s {
      assert all[from..to][i] == all[from + i];
      assert all[from + i] in multiset(all);
    }
  }

  /** Every row of the reversed first `m` rows of a permutation of `s` is a row of `s`. */
  lemma ReversedPrefixFrom<T>(all: seq<T>, s: seq<T>, m: nat)
    requires multiset(all) == multiset(s) && m <= |all|
    ensures forall i :: 0 <= i < m ==> Reverse(all[..m])[i] in s
  {
    forall i | 0 <= i < m ensures Reverse(all[..m])[i] in s {
      assert Reverse(all[..m])[i] == all[m - 1 - i];
      assert all[m - 1 - i] in multiset(all);
    }
  }

  /** Every row of `s` sits somewhere in a permutation of it. */
  lemma PermutedIndex<T>(all: seq<T>, s: seq<T>, j: nat)
    requires multiset(all) == multiset(s) && j < |s|
    ensures exists p :: 0 <= p < |all| && all[p] == s[j]
  {
    assert s[j] in multiset(all);
  }

  /** A slice of a non-increasing list is non-increasing. */
  lemma SliceSortedDesc<T>(all: seq<T>, key: T -> Key, from: nat, to: nat)
    requires SortedDescBy(all, key) && from <= to <= |all|
    ensures SortedDescBy(all[from..to], key)
  {
    var w := all[from..to];
    forall i, j | 0 <= i < j < |w| ensures KeyLe(key(w[j]), key(w[i])) {
      assert w[i] == all[from + i] && w[j] == all[from + j];
    }
  }

  /** Insertion sort by `key`, reversed: rows in non-increasing key order. */
  function SortDescBy<T(==)>(s: seq<T>, key: T -> Key): seq<T> {
    Reverse(SortBy(s, key))
  }

  /** The same rows, non-increasing by key. */
  lemma SortDescBySorted<T>(s: seq<T>, key: T -> Key)
    ensures SortedDescBy(SortDescBy(s, key), key)
    ensures multiset(SortDescBy(s, key)) == multiset(s)
    ensures |SortDescBy(s, key)| == |s|
  {
    var up := SortBy(s, key);
    SortBySorted(s, key);
    ReverseMultiset(up);
  }

  /** No row occurs twice. */
  predicate Distinct<T(==)>(s: seq<T>) {
    forall i, j :: 0 <= i < j < |s| ==> s[i] != s[j]
  }

  lemma {:induction false} DistinctCount<T>(s: seq<T>, x: T)
    requires Distinct(s)
    ensures multiset(s)[x] <= 1
  {
    if s != [] {
      assert Distinct(s[1..]) by {
        forall i, j | 0 <= i < j < |s[1..]| ensures s[1..][i] != s[1..][j] {
          assert s[1..][i] == s[i + 1] && s[1..][j] == s[j + 1];
        }
      }
      DistinctCount(s[1..], x);
      assert s == [s[0]] + s[1..];
      if x == s[0] {
        assert x !in s[1..];
      }
    }
  }

  /** A permutation of a list without repeats has none. */
  lemma PermutationDistinct<T>(all: seq<T>, s: seq<T>)
    requires multiset(all) == multiset(s) && Distinct(s)
    ensures Distinct(all)
  {
    forall i, j | 0 <= i < j < |all| ensures all[i] != all[j] {
      if all[i] == all[j] {
        var x := all[i];
        assert all == all[..i] + [x] + all[i + 1..j] + [x] + all[j + 1..];
        assert multiset(all)[x] >= 2;
        DistinctCount(s, x);
        assert false;
      }
    }
  }
}
