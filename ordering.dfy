/**
 * The orderings behind the `ORDER BY` clauses of the route queries: names in
 * code-point lexicographic order, timestamps numerically.  A query result is
 * produced by repeatedly taking a least remaining row, so it is sorted by the
 * key; the minimum it takes exists by `MinExists`.
 */
module Ordering {

  /** `a <= b` comparing strings character by character (a prefix comes first). */
  predicate LexLeq(a: string, b: string)
    decreases |a|
  {
    a == [] || (b != [] && (a[0] < b[0] || (a[0] == b[0] && LexLeq(a[1..], b[1..]))))
  }

  lemma {:induction false} LexLeqTotal(a: string, b: string)
    ensures LexLeq(a, b) || LexLeq(b, a)
    decreases |a|
  {
    if a != [] && b != [] && a[0] == b[0] {
      LexLeqTotal(a[1..], b[1..]);
    }
  }

  lemma {:induction false} LexLeqTransitive(a: string, b: string, c: string)
    requires LexLeq(a, b) && LexLeq(b, c)
    ensures LexLeq(a, c)
    decreases |a|
  {
    if a != [] && b != [] && c != [] && a[0] == b[0] && b[0] == c[0] {
      LexLeqTransitive(a[1..], b[1..], c[1..]);
    }
  }

  ghost predicate TotalPreorder<T(!new)>(le: (T, T) -> bool) {
    && (forall a, b :: le(a, b) || le(b, a))
    && (forall a, b, c :: le(a, b) && le(b, c) ==> le(a, c))
  }

  /** Every element is related by `le` to every later one. */
  predicate SortedBy<T>(s: seq<T>, le: (T, T) -> bool) {
    forall i, j :: 0 <= i < j < |s| ==> le(s[i], s[j])
  }

  predicate NoDuplicates<T(==)>(s: seq<T>) {
    forall i, j :: 0 <= i < j < |s| ==> s[i] != s[j]
  }

  /** A non-empty finite set has a least element under a total preorder. */
  lemma {:induction false} MinExists<T>(s: set<T>, le: (T, T) -> bool)
    requires s != {}
    requires forall a, b :: a in s && b in s ==> le(a, b) || le(b, a)
    requires forall a, b, c :: a in s && b in s && c in s && le(a, b) && le(b, c) ==> le(a, c)
    ensures exists m :: m in s && forall y :: y in s ==> le(m, y)
    decreases |s|
  {
    var x :| x in s;
    if s == {x} {
      assert le(x, x);
      assert forall y :: y in s ==> le(x, y);
    } else {
      var rest := s - {x};
      MinExists(rest, le);
      var m :| m in rest && forall y :: y in rest ==> le(m, y);
      if le(x, m) {
        forall y | y in s
          ensures le(x, y)
        {
          if y != x {
            assert y in rest && le(m, y);
          } else {
            assert le(x, x) || le(x, x);
          }
        }
      } else {
        assert le(m, x);
        assert forall y :: y in s ==> le(m, y);
      }
    }
  }

  /**
   * `ORDER BY`: the elements of `s`, each once, least first.  Elements that
   * `le` ranks equally come out in an unspecified order, as SQL leaves them.
   */
  method SortBy<T(==)>(s: set<T>, le: (T, T) -> bool) returns (r: seq<T>)
    requires forall a, b :: a in s && b in s ==> le(a, b) || le(b, a)
    requires forall a, b, c :: a in s && b in s && c in s && le(a, b) && le(b, c) ==> le(a, c)
    ensures forall x :: x in r <==> x in s
    ensures NoDuplicates(r)
    ensures SortedBy(r, le)
  {
    r := [];
    var rest := s;
    while rest != {}
      invariant rest <= s
      invariant forall x :: x in r <==> x in s && x !in rest
      invariant NoDuplicates(r)
      invariant SortedBy(r, le)
      invariant forall x, y :: x in r && y in rest ==> le(x, y)
      decreases |rest|
    {
      MinExists(rest, le);
      var m :| m in rest && forall y :: y in rest ==> le(m, y);
      r := r + [m];
      rest := rest - {m};
    }
  }
}
