/**
 * `ORDER BY` on a composite key. Every ordering the core asks of the store is expressed
 * as a sort key of integers compared lexicographically, so one sort serves all of them.
 */
module Sorting {

  /** Lexicographic order on integer sequences; a proper prefix comes first. */
  predicate LexLe(a: seq<int>, b: seq<int>) {
    |a| == 0 || (|b| > 0 && (a[0] < b[0] || (a[0] == b[0] && LexLe(a[1..], b[1..]))))
  }

  lemma {:induction false} LexLeTotal(a: seq<int>, b: seq<int>)
    ensures LexLe(a, b) || LexLe(b, a)
  {
    if |a| > 0 && |b| > 0 && a[0] == b[0] {
      LexLeTotal(a[1..], b[1..]);
    }
  }

  lemma {:induction false} LexLeTransitive(a: seq<int>, b: seq<int>, c: seq<int>)
    requires LexLe(a, b) && LexLe(b, c)
    ensures LexLe(a, c)
  {
    if |a| > 0 && a[0] == b[0] && b[0] == c[0] {
      LexLeTransitive(a[1..], b[1..], c[1..]);
    }
  }

  predicate SortedBy<T>(xs: seq<T>, key: T -> seq<int>) {
    forall i, j :: 0 <= i < j < |xs| ==> LexLe(key(xs[i]), key(xs[j]))
  }

  /** A row whose key precedes every key of a sorted sequence may be put in front of it. */
  lemma {:induction false} PrependKeepsSorted<T>(y: T, ys: seq<T>, key: T -> seq<int>)
    requires SortedBy(ys, key)
    requires forall z :: z in ys ==> LexLe(key(y), key(z))
    ensures SortedBy([y] + ys, key)
  {
    var r := [y] + ys;
    forall i, j | 0 <= i < j < |r| ensures LexLe(key(r[i]), key(r[j])) {
      assert r[j] == ys[j - 1] && r[j] in ys;
      if i > 0 {
        assert r[i] == ys[i - 1];
      }
    }
  }

  /** A key at most the first of a sorted sequence is at most all of them. */
  lemma BelowFirstIsBelowAll<T>(x: T, xs: seq<T>, key: T -> seq<int>)
    requires SortedBy(xs, key) && xs != [] && LexLe(key(x), key(xs[0]))
    ensures forall z :: z in xs ==> LexLe(key(x), key(z))
  {
    forall z | z in xs ensures LexLe(key(x), key(z)) {
      var m :| 0 <= m < |xs| && xs[m] == z;
      if m > 0 {
        LexLeTransitive(key(x), key(xs[0]), key(z));
      }
    }
  }

  /** The first row of a sorted sequence precedes x and the rest, in whatever order. */
  lemma FirstBelowInserted<T>(x: T, xs: seq<T>, rest: seq<T>, key: T -> seq<int>)
    requires SortedBy(xs, key) && xs != [] && LexLe(key(xs[0]), key(x))
    requires multiset(rest) == multiset(xs[1..]) + multiset{x}
    ensures forall z :: z in rest ==> LexLe(key(xs[0]), key(z))
  {
    forall z | z in rest ensures LexLe(key(xs[0]), key(z)) {
      assert z in multiset(rest);
      if z != x {
        assert z in multiset(xs[1..]);
        var m :| 0 <= m < |xs[1..]| && xs[1..][m] == z;
        assert xs[m + 1] == z;
      }
    }
  }

  /** x placed into a sorted sequence before the first element it does not follow. */
  function InsertSorted<T>(x: T, xs: seq<T>, key: T -> seq<int>): (r: seq<T>)
    requires SortedBy(xs, key)
    ensures SortedBy(r, key)
    ensures multiset(r) == multiset(xs) + multiset{x}
  {
    if xs == [] then [x]
    else if LexLe(key(x), key(xs[0])) then
      BelowFirstIsBelowAll(x, xs, key);
      PrependKeepsSorted(x, xs, key);
      [x] + xs
    else
      LexLeTotal(key(x), key(xs[0]));
      var rest := InsertSorted(x, xs[1..], key);
      FirstBelowInserted(x, xs, rest, key);
      PrependKeepsSorted(xs[0], rest, key);
      assert xs == [xs[0]] + xs[1..];
      [xs[0]] + rest
  }

  /** The rows of xs in ascending order of their sort key. */
  function SortBy<T>(xs: seq<T>, key: T -> seq<int>): (r: seq<T>)
    ensures SortedBy(r, key)
    ensures multiset(r) == multiset(xs)
  {
    if xs == [] then []
    else
      assert xs == xs[..|xs| - 1] + [xs[|xs| - 1]];
      InsertSorted(xs[|xs| - 1], SortBy(xs[..|xs| - 1], key), key)
  }

  /** A sort key that begins with an integer orders by that integer first. */
  lemma LexLeHead(a: seq<int>, b: seq<int>)
    requires |a| > 0 && LexLe(a, b)
    ensures |b| > 0 && a[0] <= b[0]
    ensures a[0] == b[0] ==> LexLe(a[1..], b[1..])
  {
  }

  /** Keys that start with equal prefixes of the same length compare by what follows. */
  lemma {:induction false} LexLeAfterCommonPrefix(p: seq<int>, a: seq<int>, b: seq<int>)
    requires LexLe(p + a, p + b)
    ensures LexLe(a, b)
  {
    if |p| == 0 {
      assert p + a == a && p + b == b;
    } else {
      assert (p + a)[1..] == p[1..] + a && (p + b)[1..] == p[1..] + b;
      assert (p + a)[0] == (p + b)[0];
      assert LexLe(p[1..] + a, p[1..] + b);
      LexLeAfterCommonPrefix(p[1..], a, b);
    }
  }
}
