/**
 * Ruby's `Array#<=>` on integer arrays of one length, and `sort` /
 * `sort_by` over such keys: the orders day15.rb puts units and enemies in.
 */
module Ordering {

  /** `a <=> b` is negative: `a` comes first in lexicographic order. */
  predicate LexLess(a: seq<int>, b: seq<int>)
    decreases |a|
  {
    |a| > 0 && |b| > 0 && (a[0] < b[0] || (a[0] == b[0] && LexLess(a[1..], b[1..])))
  }

  /** On keys of one length, lexicographic order is a strict total order. */
  lemma {:induction false} LexLessIsStrictTotal(a: seq<int>, b: seq<int>, c: seq<int>)
    requires |a| == |b| == |c|
    ensures !LexLess(a, a)
    ensures LexLess(a, b) ==> !LexLess(b, a)
    ensures LexLess(a, b) && LexLess(b, c) ==> LexLess(a, c)
    ensures a != b ==> LexLess(a, b) || LexLess(b, a)
    decreases |a|
  {
    if |a| > 0 {
      LexLessIsStrictTotal(a[1..], b[1..], c[1..]);
      if a != b && a[0] == b[0] {
        assert a == [a[0]] + a[1..] && b == [b[0]] + b[1..];
      }
    }
  }

  /** Every element of `s` has a key of length `n`, and no two share a key. */
  ghost predicate Keyed<T>(key: map<T, seq<int>>, s: set<T>, n: nat) {
    && (forall x {:trigger x in s} | x in s :: x in key && |key[x]| == n)
    && (forall x, y {:trigger x in s, y in s} | x in s && y in s && x != y :: key[x] != key[y])
  }

  /** `xs` lists its elements in strictly increasing key order. */
  ghost predicate Ordered<T>(key: map<T, seq<int>>, xs: seq<T>)
    decreases |xs|
  {
    || xs == []
    || (&& xs[0] in key
        && (forall y {:trigger y in xs[1..]} | y in xs[1..] :: y in key && LexLess(key[xs[0]], key[y]))
        && Ordered(key, xs[1..]))
  }

  /** In an ordered list, every element has a smaller key than every later one. */
  lemma {:induction false} OrderedByIndex<T>(key: map<T, seq<int>>, xs: seq<T>)
    requires Ordered(key, xs)
    ensures forall i, j | 0 <= i < j < |xs| :: xs[i] in key && xs[j] in key && LexLess(key[xs[i]], key[xs[j]])
    decreases |xs|
  {
    if xs != [] {
      OrderedByIndex(key, xs[1..]);
      forall i, j | 0 <= i < j < |xs| ensures xs[i] in key && xs[j] in key && LexLess(key[xs[i]], key[xs[j]]) {
        if i == 0 {
          assert xs[j] in xs[1..];
        } else {
          assert xs[i] == xs[1..][i - 1] && xs[j] == xs[1..][j - 1];
        }
      }
    }
  }

  /** `m` is the element of `s` with the least key. */
  predicate Least<T(==)>(key: map<T, seq<int>>, s: set<T>, m: T) {
    m in s && m in key && forall y {:trigger y in s} | y in s && y != m :: y in key && LexLess(key[m], key[y])
  }

  lemma KeyedIsStrict<T>(key: map<T, seq<int>>, s: set<T>, n: nat)
    requires Keyed(key, s, n)
    ensures forall x, y {:trigger x in s, y in s} | x in s && y in s :: LexLess(key[x], key[y]) ==> !LexLess(key[y], key[x])
  {
    forall x, y | x in s && y in s ensures LexLess(key[x], key[y]) ==> !LexLess(key[y], key[x]) {
      LexLessIsStrictTotal(key[x], key[y], key[y]);
    }
  }

  /** A non-empty keyed set has an element with the least key. */
  lemma {:induction false} LeastExists<T>(key: map<T, seq<int>>, s: set<T>, n: nat)
    requires Keyed(key, s, n) && s != {}
    ensures exists m :: Least(key, s, m)
    decreases |s|
  {
    var x :| x in s;
    if s == {x} {
      assert Least(key, s, x);
    } else {
      var rest := s - {x};
      LeastExists(key, rest, n);
      var m' :| Least(key, rest, m');
      LexLessIsStrictTotal(key[x], key[m'], key[m']);
      if LexLess(key[x], key[m']) {
        forall y | y in s && y != x ensures LexLess(key[x], key[y]) {
          if y != m' {
            assert y in rest;
            LexLessIsStrictTotal(key[x], key[m'], key[y]);
          }
        }
        assert Least(key, s, x);
      } else {
        assert m' in s && key[x] != key[m'];
        forall y | y in s && y != m' ensures LexLess(key[m'], key[y]) {
          if y != x {
            assert y in rest;
          }
        }
        assert Least(key, s, m');
      }
    }
  }

  /**
   * `s.to_a.sort_by { key }`: the elements of `s` in increasing key order.
   * With distinct keys the order is the only one possible.
   */
  function SortBy<T(==,!new)>(key: map<T, seq<int>>, s: set<T>, ghost n: nat): (r: seq<T>)
    requires Keyed(key, s, n)
    ensures |r| == |s|
    ensures forall x {:trigger x in r} :: x in r <==> x in s
    ensures Ordered(key, r)
    decreases |s|
  {
    if s == {} then []
    else
      LeastExists(key, s, n);
      KeyedIsStrict(key, s, n);
      var m :| Least(key, s, m);
      var rest := SortBy(key, s - {m}, n);
      assert ([m] + rest)[1..] == rest;
      [m] + rest
  }
}
