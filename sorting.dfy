/**
 * `Array.prototype.sort` with a comparator, as the build script and the search
 * module use it. The engine's sort is stable (ECMAScript 2019 onwards), so it is
 * modelled by a stable insertion sort over a "less or equal" relation `le`
 * derived from the comparator (`le(a, b)` iff `compare(a, b) <= 0`).
 */
module Sorting {

  /** `le` is total and transitive: what a consistent comparator gives. */
  ghost predicate TotalPreorder<T(!new)>(le: (T, T) -> bool)
  {
    && (forall a, b :: le(a, b) || le(b, a))
    && (forall a, b, c :: le(a, b) && le(b, c) ==> le(a, c))
  }

  /** Every element is `le` every later one. */
  ghost predicate Sorted<T>(s: seq<T>, le: (T, T) -> bool)
  {
    forall i, j :: 0 <= i < j < |s| ==> le(s[i], s[j])
  }

  /** Puts `x` before the first element it is `le`; an element equal to those after it
      therefore stays ahead of them. */
  function Insert<T>(x: T, s: seq<T>, le: (T, T) -> bool): (r: seq<T>)
    ensures |r| == |s| + 1
    ensures multiset(r) == multiset(s) + multiset{x}
  {
    if s == [] then [x]
    else if le(x, s[0]) then [x] + s
    else
      assert s == [s[0]] + s[1..];
      [s[0]] + Insert(x, s[1..], le)
  }

  /** The stable sort: the result is a permutation of the input. */
  function SortBy<T>(s: seq<T>, le: (T, T) -> bool): (r: seq<T>)
    ensures |r| == |s|
    ensures multiset(r) == multiset(s)
  {
    if s == [] then []
    else
      assert s == [s[0]] + s[1..];
      Insert(s[0], SortBy(s[1..], le), le)
  }

  lemma {:induction false} InsertSorted<T(!new)>(x: T, s: seq<T>, le: (T, T) -> bool)
    requires TotalPreorder(le)
    requires Sorted(s, le)
    ensures Sorted(Insert(x, s, le), le)
  {
    if s != [] && !le(x, s[0]) {
      InsertSorted(x, s[1..], le);
      var r := Insert(x, s, le);
      var t := Insert(x, s[1..], le);
      assert r == [s[0]] + t;
      forall j | 0 < j < |r| ensures le(r[0], r[j]) {
        assert r[j] in multiset(t);
        assert r[j] in multiset(s[1..]) + multiset{x};
        if r[j] == x {
        } else {
          assert r[j] in s[1..];
          var k :| 0 <= k < |s[1..]| && s[1..][k] == r[j];
          assert s[1 + k] == r[j];
        }
      }
    }
  }

  /** The result of the sort is in `le` order. */
  lemma {:induction false} SortBySorted<T(!new)>(s: seq<T>, le: (T, T) -> bool)
    requires TotalPreorder(le)
    ensures Sorted(SortBy(s, le), le)
  {
    if s != [] {
      SortBySorted(s[1..], le);
      InsertSorted(s[0], SortBy(s[1..], le), le);
    }
  }

  /** The elements of `s` that `le` cannot tell apart from `x`, in their order in `s`. */
  function EquivTo<T>(s: seq<T>, le: (T, T) -> bool, x: T): (r: seq<T>)
    ensures |r| <= |s|
  {
    if s == [] then []
    else (if le(x, s[0]) && le(s[0], x) then [s[0]] else []) + EquivTo(s[1..], le, x)
  }

  lemma {:induction false} InsertStable<T(!new)>(y: T, s: seq<T>, le: (T, T) -> bool, x: T)
    requires TotalPreorder(le)
    ensures EquivTo(Insert(y, s, le), le, x)
         == (if le(x, y) && le(y, x) then [y] else []) + EquivTo(s, le, x)
  {
    if s == [] {
    } else if le(y, s[0]) {
      assert ([y] + s)[1..] == s;
    } else {
      var t := Insert(y, s[1..], le);
      InsertStable(y, s[1..], le, x);
      assert ([s[0]] + t)[1..] == t;
      var head := if le(x, s[0]) && le(s[0], x) then [s[0]] else [];
      var ys := if le(x, y) && le(y, x) then [y] else [];
      assert EquivTo([s[0]] + t, le, x) == head + EquivTo(t, le, x);
      assert EquivTo(s, le, x) == head + EquivTo(s[1..], le, x);
      NotBothEquivalent(le, x, y, s[0]);
      SwapEmpty(head, ys, EquivTo(s[1..], le, x));
    }
  }

  /** What goes before `y` in the sort is not equivalent to `y`. */
  lemma NotBothEquivalent<T(!new)>(le: (T, T) -> bool, x: T, y: T, z: T)
    requires TotalPreorder(le) && !le(y, z)
    ensures !(le(x, y) && le(y, x) && le(x, z) && le(z, x))
  {
  }

  lemma SwapEmpty<T>(a: seq<T>, b: seq<T>, c: seq<T>)
    requires a == [] || b == []
    ensures a + (b + c) == b + (a + c)
  {
  }

  /** Stability: elements that compare equal keep their relative order. */
  lemma {:induction false} SortByStable<T(!new)>(s: seq<T>, le: (T, T) -> bool, x: T)
    requires TotalPreorder(le)
    ensures EquivTo(SortBy(s, le), le, x) == EquivTo(s, le, x)
  {
    if s != [] {
      SortByStable(s[1..], le, x);
      InsertStable(s[0], SortBy(s[1..], le), le, x);
    }
  }

  /** Concatenation is associative; stated once generically, which is far cheaper than
      letting the solver rediscover it for sequences of strings. */
  lemma ConcatAssoc<T>(x: seq<T>, y: seq<T>, z: seq<T>)
    ensures x + (y + z) == (x + y) + z
  {
  }

  /** A prefix of a sorted sequence is sorted. */
  lemma SortedPrefix<T>(s: seq<T>, le: (T, T) -> bool, n: nat)
    requires Sorted(s, le) && n <= |s|
    ensures Sorted(s[..n], le)
  {
  }
}

/**
 * The order `Array.prototype.sort()` uses when no comparator is given: strings compared
 * character by character, a proper prefix first. JavaScript compares UTF-16 code units
 * where Dafny characters are Unicode scalar values; the two orders agree except between a
 * character above U+FFFF and one in U+E000-U+FFFF.
 */
module StringOrder {
  import opened Sorting

  /** `a` sorts before or equal to `b`. */
  predicate StrLe(a: string, b: string)
  {
    a == [] || (b != [] && (a[0] < b[0] || (a[0] == b[0] && StrLe(a[1..], b[1..]))))
  }

  lemma {:induction false} StrLeTotal(a: string, b: string)
    ensures StrLe(a, b) || StrLe(b, a)
  {
    if a != [] && b != [] && a[0] == b[0] {
      StrLeTotal(a[1..], b[1..]);
    }
  }

  lemma {:induction false} StrLeTransitive(a: string, b: string, c: string)
    requires StrLe(a, b) && StrLe(b, c)
    ensures StrLe(a, c)
  {
    if a != [] && a[0] == b[0] && b[0] == c[0] {
      StrLeTransitive(a[1..], b[1..], c[1..]);
    }
  }

  lemma {:induction false} StrLeAntisymmetric(a: string, b: string)
    requires StrLe(a, b) && StrLe(b, a)
    ensures a == b
  {
    if a != [] {
      StrLeAntisymmetric(a[1..], b[1..]);
      assert a == [a[0]] + a[1..] && b == [b[0]] + b[1..];
    }
  }

  /** A common prefix does not change the order of two strings. */
  lemma {:induction false} StrLeCommonPrefix(p: string, a: string, b: string)
    ensures StrLe(p + a, p + b) <==> StrLe(a, b)
  {
    if p != [] {
      StrLeCommonPrefix(p[1..], a, b);
      assert (p + a)[1..] == p[1..] + a && (p + b)[1..] == p[1..] + b;
    } else {
      assert p + a == a && p + b == b;
    }
  }

  /** The default string order is a total order, so sorting by it is well defined. */
  lemma StrLeIsTotalPreorder()
    ensures TotalPreorder(StrLe)
  {
    forall a, b ensures StrLe(a, b) || StrLe(b, a) { StrLeTotal(a, b); }
    forall a, b, c | StrLe(a, b) && StrLe(b, c) ensures StrLe(a, c) { StrLeTransitive(a, b, c); }
  }
}
