/**
 * Row selection on ordered tables, as the analysis scripts use it:
 * boolean-mask filtering (which keeps the table order), the "exactly one
 * matching row" lookup, and first-appearance de-duplication (`unique()`).
 */
module Select {
  import opened Wrappers

  /** The elements of `s` that satisfy `p`, in their original order. */
  function Filter<T>(s: seq<T>, p: T -> bool): (r: seq<T>)
    ensures |r| <= |s|
    ensures forall i :: 0 <= i < |r| ==> r[i] in s && p(r[i])
    ensures forall i :: 0 <= i < |s| && p(s[i]) ==> s[i] in r
  {
    if s == [] then []
    else
      assert forall i :: 1 <= i < |s| ==> s[i] == s[1..][i - 1];
      if p(s[0]) then [s[0]] + Filter(s[1..], p) else Filter(s[1..], p)
  }

  /** Filtering distributes over concatenation: relative order is kept. */
  lemma {:induction false} FilterConcat<T>(a: seq<T>, b: seq<T>, p: T -> bool)
    ensures Filter(a + b, p) == Filter(a, p) + Filter(b, p)
  {
    if a == [] {
      assert a + b == b;
    } else {
      assert (a + b)[0] == a[0];
      assert (a + b)[1..] == a[1..] + b;
      FilterConcat(a[1..], b, p);
    }
  }

  /** A sequence all of whose elements pass the predicate is left unchanged. */
  lemma {:induction false} FilterKeepsAll<T>(s: seq<T>, p: T -> bool)
    requires forall i :: 0 <= i < |s| ==> p(s[i])
    ensures Filter(s, p) == s
  {
    if s != [] {
      assert p(s[0]);
      FilterKeepsAll(s[1..], p);
    }
  }

  /** Filtering by `p` and then by `q` is filtering by their conjunction `pq`. */
  lemma {:induction false} FilterOfFilter<T>(s: seq<T>, p: T -> bool, q: T -> bool, pq: T -> bool)
    requires forall x :: pq(x) == (p(x) && q(x))
    ensures Filter(Filter(s, p), q) == Filter(s, pq)
  {
    if s != [] {
      FilterOfFilter(s[1..], p, q, pq);
      if p(s[0]) {
        assert Filter([s[0]] + Filter(s[1..], p), q)
            == Filter([s[0]], q) + Filter(Filter(s[1..], p), q) by {
          FilterConcat([s[0]], Filter(s[1..], p), q);
        }
        assert Filter([s[0]], q) == if q(s[0]) then [s[0]] else [] by {
          assert [s[0]][1..] == [];
        }
      }
    }
  }

  /** A sequence none of whose elements pass the predicate filters to nothing. */
  lemma {:induction false} FilterNone<T>(s: seq<T>, p: T -> bool)
    requires forall i :: 0 <= i < |s| ==> !p(s[i])
    ensures Filter(s, p) == []
  {
    if s != [] {
      assert !p(s[0]);
      FilterNone(s[1..], p);
    }
  }

  /** `i` is the one and only index of `s` whose element satisfies `p`. */
  ghost predicate ExactlyAt<T>(s: seq<T>, p: T -> bool, i: int) {
    && 0 <= i < |s|
    && p(s[i])
    && forall j :: 0 <= j < |s| && j != i ==> !p(s[j])
  }

  lemma {:induction false} FilterSingleton<T>(s: seq<T>, p: T -> bool)
    ensures |Filter(s, p)| == 1 <==> exists i :: ExactlyAt(s, p, i)
    ensures forall i :: ExactlyAt(s, p, i) ==> Filter(s, p) == [s[i]]
  {
    if s != [] {
      var rest := s[1..];
      FilterSingleton(rest, p);
      assert forall j :: 1 <= j < |s| ==> s[j] == rest[j - 1];
      if p(s[0]) {
        forall i | ExactlyAt(s, p, i) ensures i == 0 {
        }
        if |Filter(s, p)| == 1 {
          assert Filter(rest, p) == [];
          forall j | 0 <= j < |s| && j != 0 ensures !p(s[j]) {
            assert s[j] == rest[j - 1];
          }
          assert ExactlyAt(s, p, 0);
        }
        if ExactlyAt(s, p, 0) {
          forall k | 0 <= k < |rest| ensures !p(rest[k]) {
            assert rest[k] == s[k + 1];
          }
          FilterNone(rest, p);
        }
      } else {
        forall i | ExactlyAt(s, p, i) ensures i > 0 && ExactlyAt(rest, p, i - 1) {
          assert i != 0;
          forall j | 0 <= j < |rest| && j != i - 1 ensures !p(rest[j]) {
            assert rest[j] == s[j + 1];
          }
        }
        forall i | ExactlyAt(rest, p, i) ensures ExactlyAt(s, p, i + 1) {
          forall j | 0 <= j < |s| && j != i + 1 ensures !p(s[j]) {
            if j > 0 {
              assert s[j] == rest[j - 1];
            }
          }
        }
        if |Filter(s, p)| == 1 {
          var i :| ExactlyAt(rest, p, i);
          assert ExactlyAt(s, p, i + 1);
        }
      }
    }
  }

  /**
   * The one element of `s` satisfying `p`, or None when none or several do.
   */
  function TheOnly<T>(s: seq<T>, p: T -> bool): (r: Option<T>)
    ensures r.Some? <==> exists i :: ExactlyAt(s, p, i)
    ensures forall i :: ExactlyAt(s, p, i) ==> r == Some(s[i])
  {
    FilterSingleton(s, p);
    var m := Filter(s, p);
    if |m| == 1 then Some(m[0]) else None
  }

  ghost predicate NoDuplicates<T>(s: seq<T>) {
    forall i, j :: 0 <= i < j < |s| ==> s[i] != s[j]
  }

  /** The position of the first occurrence of `x` in `s`. */
  function FirstIndex<T(==)>(s: seq<T>, x: T): (i: nat)
    requires x in s
    ensures i < |s| && s[i] == x
    ensures forall j :: 0 <= j < i ==> s[j] != x
  {
    if s[0] == x then 0 else 1 + FirstIndex(s[1..], x)
  }

  /** An element of a prefix is first found inside that prefix. */
  lemma FirstIndexOfPrefix<T>(s: seq<T>, n: nat, x: T)
    requires n <= |s| && x in s[..n]
    ensures FirstIndex(s, x) == FirstIndex(s[..n], x)
  {
    var k := FirstIndex(s[..n], x);
    assert s[k] == x;
    assert forall j :: 0 <= j < k ==> s[j] == s[..n][j] != x;
  }

  /**
   * The distinct elements of `s` in the order of their first appearance,
   * as `pandas.Series.unique()` returns them.
   */
  function Distinct<T(==)>(s: seq<T>): (r: seq<T>)
    ensures NoDuplicates(r)
    ensures forall i :: 0 <= i < |r| ==> r[i] in s
    ensures forall i :: 0 <= i < |s| ==> s[i] in r
  {
    if s == [] then []
    else
      var init := s[..|s| - 1];
      var last := s[|s| - 1];
      assert s == init + [last];
      var d := Distinct(init);
      if last in d then d else d + [last]
  }

  /** Distinct lists elements in strictly increasing order of first appearance. */
  lemma {:induction false} DistinctOrder<T>(s: seq<T>, i: int, j: int)
    requires 0 <= i < j < |Distinct(s)|
    ensures FirstIndex(s, Distinct(s)[i]) < FirstIndex(s, Distinct(s)[j])
  {
    var init := s[..|s| - 1];
    var last := s[|s| - 1];
    assert s == init + [last];
    var d := Distinct(init);
    var x, y := Distinct(s)[i], Distinct(s)[j];
    assert x in d && x in init;
    FirstIndexOfPrefix(s, |s| - 1, x);
    if j < |d| {
      assert y in init;
      FirstIndexOfPrefix(s, |s| - 1, y);
      DistinctOrder(init, i, j);
    } else {
      assert y == last && last !in init;
      assert FirstIndex(s, y) == |s| - 1;
    }
  }
}
