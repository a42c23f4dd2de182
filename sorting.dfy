/**
 * A stable sort by an integer key, the model of JavaScript's
 * `Array.prototype.sort` with a comparator of the form `key(a) - key(b)`.
 * Since ECMAScript 2019 that sort is required to be stable: elements whose
 * keys are equal keep their relative order. Insertion sort has exactly that
 * behaviour, so it serves as the reference definition.
 */
module Sorting {

  /** `s` is in non-decreasing order of `key`. */
  predicate SortedBy<T>(s: seq<T>, key: T -> int) {
    forall i, j | 0 <= i < j < |s| :: key(s[i]) <= key(s[j])
  }

  /** No two elements of `s` agree on `f` (for posts: no two share an id). */
  predicate Injective<T>(s: seq<T>, f: T -> nat) {
    forall i, j | 0 <= i < j < |s| :: f(s[i]) != f(s[j])
  }

  /** Inserts `x` in front of the first element whose key is not smaller. */
  function Insert<T>(x: T, s: seq<T>, key: T -> int): (r: seq<T>)
    ensures multiset(r) == multiset(s) + multiset{x}
    ensures SortedBy(s, key) ==> SortedBy(r, key)
  {
    if s == [] || key(x) <= key(s[0]) then
      [x] + s
    else
      var rest := Insert(x, s[1..], key);
      InsertStep(x, s, rest, key);
      [s[0]] + rest
  }

  /** The recursive case of `Insert`: `x` goes after the head `s[0]`. */
  lemma InsertStep<T>(x: T, s: seq<T>, rest: seq<T>, key: T -> int)
    requires s != [] && key(s[0]) < key(x)
    requires multiset(rest) == multiset(s[1..]) + multiset{x}
    requires SortedBy(s[1..], key) ==> SortedBy(rest, key)
    ensures multiset([s[0]] + rest) == multiset(s) + multiset{x}
    ensures SortedBy(s, key) ==> SortedBy([s[0]] + rest, key)
  {
    assert s == [s[0]] + s[1..];
    if SortedBy(s, key) {
      assert SortedBy(s[1..], key);
      var r := [s[0]] + rest;
      forall i, j | 0 <= i < j < |r| ensures key(r[i]) <= key(r[j]) {
        if i == 0 {
          var y := rest[j - 1];
          assert y in multiset(rest);
          if y != x {
            assert y in multiset(s[1..]);
            var m :| 0 <= m < |s[1..]| && s[1..][m] == y;
            assert s[m + 1] == y;
          }
        }
      }
    }
  }

  /** Stable insertion sort: the result is ordered by `key` and is a permutation of `s`. */
  function Sort<T>(s: seq<T>, key: T -> int): (r: seq<T>)
    ensures multiset(r) == multiset(s)
    ensures SortedBy(r, key)
  {
    if s == [] then []
    else
      assert s == [s[0]] + s[1..];
      Insert(s[0], Sort(s[1..], key), key)
  }

  /** Membership is kept by sorting. */
  lemma SortMembers<T>(s: seq<T>, key: T -> int)
    ensures forall x :: x in Sort(s, key) <==> x in s
  {
    var r := Sort(s, key);
    forall x ensures x in r <==> x in s {
      assert x in r <==> x in multiset(r);
      assert x in s <==> x in multiset(s);
    }
  }

  lemma {:induction false} InsertInjective<T>(x: T, s: seq<T>, key: T -> int, f: T -> nat)
    requires Injective(s, f)
    requires forall y | y in s :: f(y) != f(x)
    ensures Injective(Insert(x, s, key), f)
  {
    if s == [] || key(x) <= key(s[0]) {
    } else {
      assert s == [s[0]] + s[1..];
      InsertInjective(x, s[1..], key, f);
      var rest := Insert(x, s[1..], key);
      forall k | 0 <= k < |rest| ensures f(s[0]) != f(rest[k]) {
        assert rest[k] in multiset(rest);
        if rest[k] != x {
          assert rest[k] in multiset(s[1..]);
          var m :| 0 <= m < |s[1..]| && s[1..][m] == rest[k];
          assert s[m + 1] == rest[k];
        }
      }
    }
  }

  /** Sorting keeps a projection injective: posts with distinct ids stay distinct. */
  lemma {:induction false} SortInjective<T>(s: seq<T>, key: T -> int, f: T -> nat)
    requires Injective(s, f)
    ensures Injective(Sort(s, key), f)
  {
    if s != [] {
      assert s == [s[0]] + s[1..];
      SortInjective(s[1..], key, f);
      SortMembers(s[1..], key);
      forall y | y in Sort(s[1..], key) ensures f(y) != f(s[0]) {
        assert y in multiset(Sort(s[1..], key));
        assert y in multiset(s[1..]);
        var m :| 0 <= m < |s[1..]| && s[1..][m] == y;
        assert s[m + 1] == y;
      }
      InsertInjective(s[0], Sort(s[1..], key), key, f);
    }
  }

  /**
   * `s` is ordered by `key`, and elements with equal keys are ordered by
   * `f` (for posts: by id, the order they were stored in).
   */
  predicate LexSortedBy<T>(s: seq<T>, key: T -> int, f: T -> nat) {
    forall i, j | 0 <= i < j < |s| :: LexLess(s[i], s[j], key, f)
  }

  /** Two elements in the order `LexSortedBy` asks for. */
  predicate LexLess<T>(a: T, b: T, key: T -> int, f: T -> nat) {
    key(a) < key(b) || (key(a) == key(b) && f(a) < f(b))
  }

  /** `x` is put in front: every later element has a key at least as large and a larger `f`. */
  lemma InsertLexFront<T>(x: T, s: seq<T>, key: T -> int, f: T -> nat)
    requires LexSortedBy(s, key, f)
    requires forall y | y in s :: f(x) < f(y)
    requires s == [] || key(x) <= key(s[0])
    ensures LexSortedBy([x] + s, key, f)
  {
    var r := [x] + s;
    forall i, j | 0 <= i < j < |r| ensures LexLess(r[i], r[j], key, f) {
      assert r[j] == s[j - 1];
      if i == 0 {
        assert j - 1 == 0 || LexLess(s[0], s[j - 1], key, f);
      } else {
        assert r[i] == s[i - 1];
      }
    }
  }

  /** `x` goes after the head `s[0]`, whose key is smaller. */
  lemma InsertLexStep<T>(x: T, s: seq<T>, rest: seq<T>, key: T -> int, f: T -> nat)
    requires s != [] && key(s[0]) < key(x) && LexSortedBy(s, key, f)
    requires multiset(rest) == multiset(s[1..]) + multiset{x}
    requires LexSortedBy(rest, key, f)
    ensures LexSortedBy([s[0]] + rest, key, f)
  {
    var r := [s[0]] + rest;
    forall k | 0 <= k < |rest| ensures LexLess(s[0], rest[k], key, f) {
      assert rest[k] in multiset(rest);
      if rest[k] != x {
        assert rest[k] in multiset(s[1..]);
        var m :| 0 <= m < |s[1..]| && s[1..][m] == rest[k];
        assert s[m + 1] == rest[k];
      }
    }
    forall i, j | 0 <= i < j < |r| ensures LexLess(r[i], r[j], key, f) {
      assert r[j] == rest[j - 1];
      if i > 0 {
        assert r[i] == rest[i - 1];
      }
    }
  }

  lemma {:induction false} InsertLex<T>(x: T, s: seq<T>, key: T -> int, f: T -> nat)
    requires LexSortedBy(s, key, f)
    requires forall y | y in s :: f(x) < f(y)
    ensures LexSortedBy(Insert(x, s, key), key, f)
  {
    if s == [] || key(x) <= key(s[0]) {
      InsertLexFront(x, s, key, f);
    } else {
      assert LexSortedBy(s[1..], key, f) by {
        forall i, j | 0 <= i < j < |s[1..]| ensures LexLess(s[1..][i], s[1..][j], key, f) {
          assert s[1..][i] == s[i + 1] && s[1..][j] == s[j + 1];
        }
      }
      InsertLex(x, s[1..], key, f);
      InsertLexStep(x, s, Insert(x, s[1..], key), key, f);
    }
  }

  /**
   * Stability: when `s` is in strictly ascending order of `f`, sorting by
   * `key` leaves elements with equal keys in ascending order of `f`.
   */
  lemma {:induction false} SortLex<T>(s: seq<T>, key: T -> int, f: T -> nat)
    requires forall i, j | 0 <= i < j < |s| :: f(s[i]) < f(s[j])
    ensures LexSortedBy(Sort(s, key), key, f)
  {
    if s != [] {
      assert s == [s[0]] + s[1..];
      SortLex(s[1..], key, f);
      forall y | y in Sort(s[1..], key) ensures f(s[0]) < f(y) {
        assert y in multiset(Sort(s[1..], key));
        assert y in multiset(s[1..]);
        var m :| 0 <= m < |s[1..]| && s[1..][m] == y;
        assert s[m + 1] == y;
      }
      InsertLex(s[0], Sort(s[1..], key), key, f);
    }
  }
}
