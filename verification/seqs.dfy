/** List comprehension `[x for x in xs if p(x)]` and the derived notions
    the rest of the model states its contracts with. */
module Seqs {
  import opened Wrappers

  /** `a` is `b` with some elements deleted, order kept. */
  predicate IsSubsequence<T(==,!new)>(a: seq<T>, b: seq<T>)
    decreases |b|
  {
    if |a| == 0 then true
    else if |b| == 0 then false
    else (a[0] == b[0] && IsSubsequence(a[1..], b[1..])) || IsSubsequence(a, b[1..])
  }

  /** `[x for x in xs if p(x)]`: the order-preserving sub-list that keeps
      every element satisfying `p`, as often as it occurs, and nothing else. */
  function Filter<T(==,!new)>(p: T -> bool, xs: seq<T>): (r: seq<T>)
    ensures forall x :: x in r <==> x in xs && p(x)
  {
    if |xs| == 0 then []
    else (if p(xs[0]) then [xs[0]] else []) + Filter(p, xs[1..])
  }

  /** `Filter` keeps exactly the elements `p` accepts, each as often as it
      occurs, in their original order. */
  lemma {:induction false} FilterSpec<T(!new)>(p: T -> bool, xs: seq<T>)
    ensures IsSubsequence(Filter(p, xs), xs)
    ensures forall x :: multiset(Filter(p, xs))[x] == if p(x) then multiset(xs)[x] else 0
  {
    if |xs| > 0 {
      var rest := Filter(p, xs[1..]);
      FilterSpec(p, xs[1..]);
      assert xs == [xs[0]] + xs[1..];
      assert multiset(xs) == multiset{xs[0]} + multiset(xs[1..]);
      if p(xs[0]) {
        var r := [xs[0]] + rest;
        assert r[1..] == rest;
        assert multiset(r) == multiset{xs[0]} + multiset(rest);
      } else {
        assert Filter(p, xs) == rest;
      }
    }
  }

  /** Filtering distributes over concatenation. */
  lemma {:induction false} FilterAppend<T(!new)>(p: T -> bool, a: seq<T>, b: seq<T>)
    ensures Filter(p, a + b) == Filter(p, a) + Filter(p, b)
  {
    if |a| == 0 {
      assert a + b == b;
    } else {
      assert (a + b)[1..] == a[1..] + b;
      FilterAppend(p, a[1..], b);
    }
  }

  /** Nothing is kept when `p` rejects every element. */
  lemma {:induction false} FilterNone<T(!new)>(p: T -> bool, xs: seq<T>)
    requires forall x :: x in xs ==> !p(x)
    ensures Filter(p, xs) == []
  {
    if |xs| > 0 {
      FilterNone(p, xs[1..]);
    }
  }

  /** The last element of `xs` that `p` keeps is the last element of the
      filtered list. */
  lemma FilterLast<T(!new)>(p: T -> bool, xs: seq<T>)
    requires |xs| > 0 && p(xs[|xs| - 1])
    ensures |Filter(p, xs)| > 0 && Filter(p, xs)[|Filter(p, xs)| - 1] == xs[|xs| - 1]
  {
    var n := |xs| - 1;
    assert xs == xs[..n] + [xs[n]];
    FilterAppend(p, xs[..n], [xs[n]]);
    assert Filter(p, [xs[n]]) == [xs[n]] by {
      assert [xs[n]][1..] == [];
    }
  }

  /** The set `{f(x) for x in xs}`. */
  function Image<T(==), U>(f: T -> U, xs: seq<T>): set<U>
  {
    set x | x in xs :: f(x)
  }

  lemma ImageSingle<T, U>(f: T -> U, x: T)
    ensures Image(f, [x]) == {f(x)}
  {
    assert x in [x];
  }

  lemma ImageAppend<T, U>(f: T -> U, a: seq<T>, b: seq<T>)
    ensures Image(f, a + b) == Image(f, a) + Image(f, b)
  {
    assert forall x :: x in a + b <==> x in a || x in b;
  }

  /** Filtering keeps keys distinct. */
  lemma {:induction false} FilterDistinct<T(!new)>(key: T -> string, p: T -> bool, xs: seq<T>)
    requires DistinctBy(key, xs)
    ensures DistinctBy(key, Filter(p, xs))
  {
    if |xs| > 0 {
      var rest := xs[1..];
      assert DistinctBy(key, rest) by {
        forall i, j | 0 <= i < j < |rest| ensures key(rest[i]) != key(rest[j]) {
          assert rest[i] == xs[i + 1] && rest[j] == xs[j + 1];
        }
      }
      FilterDistinct(key, p, rest);
      var t := Filter(p, rest);
      var head := if p(xs[0]) then [xs[0]] else [];
      var r := head + t;
      forall i, j | 0 <= i < j < |r| ensures key(r[i]) != key(r[j]) {
        if i < |head| {
          assert r[j] == t[j - |head|] && r[j] in rest;
          var m :| 0 <= m < |rest| && rest[m] == r[j];
          assert xs[m + 1] == r[j];
        } else {
          assert r[i] == t[i - |head|] && r[j] == t[j - |head|];
        }
      }
    }
  }

  /** No two positions of `xs` share a key. */
  predicate DistinctBy<T>(key: T -> string, xs: seq<T>)
  {
    forall i, j :: 0 <= i < j < |xs| ==> key(xs[i]) != key(xs[j])
  }

  /** The last element of `xs` whose key is `k`: the value a Python dict
      comprehension keyed by `key` keeps for `k`. */
  function LastWith<T(==)>(key: T -> string, k: string, xs: seq<T>): (r: Option<T>)
    ensures r.Some? ==> r.value in xs && key(r.value) == k
    ensures r.None? <==> k !in Image(key, xs)
  {
    if |xs| == 0 then None
    else if key(xs[|xs| - 1]) == k then Some(xs[|xs| - 1])
    else
      var r := LastWith(key, k, xs[..|xs| - 1]);
      assert xs == xs[..|xs| - 1] + [xs[|xs| - 1]];
      r
  }

  /** One more element: it is the last with its own key, and changes
      nothing for the other keys. */
  lemma LastWithSnoc<T>(key: T -> string, k: string, xs: seq<T>, x: T)
    ensures LastWith(key, k, xs + [x]) == if key(x) == k then Some(x) else LastWith(key, k, xs)
  {
    assert (xs + [x])[..|xs|] == xs;
  }
}
