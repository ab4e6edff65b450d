/**
 Generic sequence helpers mirroring the JavaScript array methods the quiz pages
 use (`map`, `filter`, `some`/`find`), together with the facts about them that
 the page-level proofs rely on.
 */
module Collections {

  /** A value that may be missing (JavaScript's `undefined`). */
  datatype Maybe<+T> = None | Some(value: T)

  /** Looks a key up in a map, `undefined` when the key is absent. */
  function Get<K, V>(m: map<K, V>, k: K): (r: Maybe<V>)
    ensures r.Some? <==> k in m
    ensures r.Some? ==> r.value == m[k]
  {
    if k in m then Some(m[k]) else None
  }

  /** `s.map(f)`. */
  function Map<T, U>(s: seq<T>, f: T -> U): (r: seq<U>)
    ensures |r| == |s|
    ensures forall i :: 0 <= i < |s| ==> r[i] == f(s[i])
  {
    seq(|s|, i requires 0 <= i < |s| => f(s[i]))
  }

  /** `s.some(p)`, equally the truthiness of `s.find(p)` over objects. */
  function Any<T>(s: seq<T>, p: T -> bool): (r: bool)
    ensures r <==> exists i :: 0 <= i < |s| && p(s[i])
  {
    if |s| == 0 then false
    else if p(s[0]) then true
    else
      assert forall i :: 1 <= i < |s| ==> s[i] == s[1..][i - 1];
      Any(s[1..], p)
  }

  /** The number of elements of `s` satisfying `p`. */
  function CountWhere<T>(s: seq<T>, p: T -> bool): nat
  {
    if |s| == 0 then 0
    else (if p(s[0]) then 1 else 0) + CountWhere(s[1..], p)
  }

  /** `a` can be obtained from `b` by deleting elements, keeping the order. */
  ghost predicate IsSubsequence<T>(a: seq<T>, b: seq<T>)
    decreases |b|
  {
    && |a| <= |b|
    && (|a| == 0
        || (a[0] == b[0] && IsSubsequence(a[1..], b[1..]))
        || IsSubsequence(a, b[1..]))
  }

  /** `s.filter(keep)`: the kept elements, in their original order, all of them. */
  function Filter<T>(s: seq<T>, keep: T -> bool): (r: seq<T>)
    ensures IsSubsequence(r, s)
    ensures forall i :: 0 <= i < |r| ==> keep(r[i])
    ensures forall i :: 0 <= i < |s| && keep(s[i]) ==> s[i] in r
    ensures |r| == CountWhere(s, keep)
  {
    if |s| == 0 then []
    else
      var rest := Filter(s[1..], keep);
      assert forall i :: 1 <= i < |s| ==> s[i] == s[1..][i - 1];
      if keep(s[0]) then
        var r := [s[0]] + rest;
        assert r[1..] == rest;
        r
      else rest
  }

  /** Pairwise-distinct elements. */
  ghost predicate Distinct<T>(s: seq<T>)
  {
    forall i, j :: 0 <= i < |s| && 0 <= j < |s| && i != j ==> s[i] != s[j]
  }

  /** When every element is kept, `filter` returns its input. */
  lemma {:induction false} FilterKeepsAll<T>(s: seq<T>, keep: T -> bool)
    requires forall i :: 0 <= i < |s| ==> keep(s[i])
    ensures Filter(s, keep) == s
  {
    if |s| > 0 {
      FilterKeepsAll(s[1..], keep);
      assert [s[0]] + s[1..] == s;
    }
  }

  /** Two tests that agree on every element of `s` keep the same elements. */
  lemma {:induction false} FilterCongruence<T>(s: seq<T>, p: T -> bool, q: T -> bool)
    requires forall i :: 0 <= i < |s| ==> p(s[i]) == q(s[i])
    ensures Filter(s, p) == Filter(s, q)
  {
    if |s| > 0 {
      assert forall i :: 0 <= i < |s[1..]| ==> s[1..][i] == s[i + 1];
      FilterCongruence(s[1..], p, q);
    }
  }

  /** Filtering distributes over concatenation. */
  lemma {:induction false} FilterAppend<T>(a: seq<T>, b: seq<T>, keep: T -> bool)
    ensures Filter(a + b, keep) == Filter(a, keep) + Filter(b, keep)
  {
    if |a| == 0 {
      assert a + b == b;
    } else {
      assert (a + b)[1..] == a[1..] + b;
      FilterAppend(a[1..], b, keep);
    }
  }

  /** Exactly one element fails `keep`: `filter` shortens the sequence by exactly one. */
  lemma {:induction false} CountWhereOneDropped<T>(s: seq<T>, keep: T -> bool, k: nat)
    requires k < |s| && !keep(s[k])
    requires forall i :: 0 <= i < |s| && i != k ==> keep(s[i])
    ensures CountWhere(s, keep) == |s| - 1
  {
    if k == 0 {
      CountWhereAll(s[1..], keep);
    } else {
      assert forall i :: 0 <= i < |s| - 1 && i != k - 1 ==> s[1..][i] == s[i + 1];
      CountWhereOneDropped(s[1..], keep, k - 1);
    }
  }

  /** Every element kept: the count is the length. */
  lemma {:induction false} CountWhereAll<T>(s: seq<T>, keep: T -> bool)
    requires forall i :: 0 <= i < |s| ==> keep(s[i])
    ensures CountWhere(s, keep) == |s|
  {
    if |s| > 0 {
      assert forall i :: 0 <= i < |s| - 1 ==> s[1..][i] == s[i + 1];
      CountWhereAll(s[1..], keep);
    }
  }

  /** Nothing kept: the count is zero. */
  lemma {:induction false} CountWhereNone<T>(s: seq<T>, keep: T -> bool)
    requires forall i :: 0 <= i < |s| ==> !keep(s[i])
    ensures CountWhere(s, keep) == 0
  {
    if |s| > 0 {
      assert forall i :: 0 <= i < |s| - 1 ==> s[1..][i] == s[i + 1];
      CountWhereNone(s[1..], keep);
    }
  }

  /** A sequence without repetitions holds each of its elements exactly once. */
  lemma {:induction false} DistinctMultiplicity<T>(s: seq<T>, x: T)
    requires Distinct(s)
    ensures multiset(s)[x] <= 1
    ensures x in s ==> multiset(s)[x] == 1
  {
    if |s| > 0 {
      assert s == [s[0]] + s[1..];
      assert Distinct(s[1..]) by {
        forall i, j | 0 <= i < |s| - 1 && 0 <= j < |s| - 1 && i != j
          ensures s[1..][i] != s[1..][j]
        {
          assert s[1..][i] == s[i + 1] && s[1..][j] == s[j + 1];
        }
      }
      DistinctMultiplicity(s[1..], x);
      if x == s[0] {
        assert x !in s[1..] by {
          forall i | 0 <= i < |s| - 1 ensures s[1..][i] != x {
            assert s[1..][i] == s[i + 1];
          }
        }
      }
    }
  }
}
