/** Python's ordering of `str` values (code point by code point, a proper
    prefix first) and the stable sort `sorted(xs, key=...)` over it. */
module Ordering {
  import opened Wrappers
  import opened Seqs

  /** `a <= b` on Python strings. */
  predicate LexLe(a: string, b: string)
    decreases |a|
  {
    |a| == 0 || (|b| > 0 && (a[0] < b[0] || (a[0] == b[0] && LexLe(a[1..], b[1..]))))
  }

  /** `a < b` on Python strings. */
  predicate LexLt(a: string, b: string)
  {
    LexLe(a, b) && a != b
  }

  lemma {:induction false} LexLeRefl(a: string)
    ensures LexLe(a, a)
    decreases |a|
  {
    if |a| > 0 {
      LexLeRefl(a[1..]);
    }
  }

  lemma {:induction false} LexLeAntisym(a: string, b: string)
    requires LexLe(a, b) && LexLe(b, a)
    ensures a == b
    decreases |a|
  {
    if |a| > 0 {
      LexLeAntisym(a[1..], b[1..]);
      assert a == [a[0]] + a[1..] && b == [b[0]] + b[1..];
    }
  }

  lemma {:induction false} LexLeTrans(a: string, b: string, c: string)
    requires LexLe(a, b) && LexLe(b, c)
    ensures LexLe(a, c)
    decreases |a|
  {
    if |a| > 0 && a[0] == b[0] && b[0] == c[0] {
      LexLeTrans(a[1..], b[1..], c[1..]);
    }
  }

  lemma {:induction false} LexLeTotal(a: string, b: string)
    ensures LexLe(a, b) || LexLe(b, a)
    decreases |a|
  {
    if |a| > 0 && |b| > 0 && a[0] == b[0] {
      LexLeTotal(a[1..], b[1..]);
    }
  }

  /** Comparing strings that share a prefix of equal length: the prefixes
      decide, and on a tie the rest does. */
  lemma {:induction false} LexLeConcat(x1: string, y1: string, x2: string, y2: string)
    requires |x1| == |x2|
    ensures LexLe(x1 + y1, x2 + y2) <==> LexLt(x1, x2) || (x1 == x2 && LexLe(y1, y2))
    decreases |x1|
  {
    if |x1| > 0 {
      assert (x1 + y1)[1..] == x1[1..] + y1;
      assert (x2 + y2)[1..] == x2[1..] + y2;
      LexLeConcat(x1[1..], y1, x2[1..], y2);
      if x1[0] == x2[0] && x1[1..] == x2[1..] {
        assert x1 == [x1[0]] + x1[1..] && x2 == [x2[0]] + x2[1..];
      }
      if LexLe(x1, x2) && LexLe(x2, x1) {
        LexLeAntisym(x1, x2);
      }
    } else {
      assert x1 + y1 == y1 && x2 + y2 == y2;
    }
  }

  /** `xs` is in nondecreasing order of `key`. */
  predicate SortedBy(key: string -> string, xs: seq<string>)
  {
    forall i, j :: 0 <= i < j < |xs| ==> LexLe(key(xs[i]), key(xs[j]))
  }

  /** `xs` is in strictly increasing order of `key`. */
  predicate StrictlyAscending(key: string -> string, xs: seq<string>)
  {
    forall i, j :: 0 <= i < j < |xs| ==> LexLt(key(xs[i]), key(xs[j]))
  }

  /** The identity key: `sorted(xs)` is `SortBy(Id, xs)`. */
  function Id(s: string): string
  {
    s
  }

  /** The test "has key `k`", as one named function value. */
  function HasKey(key: string -> string, k: string): string -> bool
  {
    x => key(x) == k
  }

  /** The elements of `xs` whose key is `k`, in order: the part of the
      input a stable sort must not reorder. */
  function KeyClass(key: string -> string, k: string, xs: seq<string>): seq<string>
  {
    Filter(HasKey(key, k), xs)
  }

  lemma KeyClassAppend(key: string -> string, k: string, a: seq<string>, b: seq<string>)
    ensures KeyClass(key, k, a + b) == KeyClass(key, k, a) + KeyClass(key, k, b)
  {
    FilterAppend(HasKey(key, k), a, b);
  }

  lemma KeyClassSingle(key: string -> string, k: string, x: string)
    ensures KeyClass(key, k, [x]) == if key(x) == k then [x] else []
  {
    assert [x][1..] == [];
    assert Filter(HasKey(key, k), [x][1..]) == [];
  }

  /** Insert `x` after every element whose key is at most `key(x)`. */
  function Insert(key: string -> string, x: string, s: seq<string>): seq<string>
  {
    if |s| == 0 then [x]
    else if LexLe(key(s[0]), key(x)) then [s[0]] + Insert(key, x, s[1..])
    else [x] + s
  }

  lemma {:induction false} InsertPerm(key: string -> string, x: string, s: seq<string>)
    ensures multiset(Insert(key, x, s)) == multiset(s) + multiset{x}
  {
    if |s| > 0 && LexLe(key(s[0]), key(x)) {
      InsertPerm(key, x, s[1..]);
      assert s == [s[0]] + s[1..];
    }
  }

  /** In a sorted list every element's key is at least the first one's. */
  lemma SortedHead(key: string -> string, s: seq<string>, y: string)
    requires SortedBy(key, s) && |s| > 0 && y in s
    ensures LexLe(key(s[0]), key(y))
  {
    var m :| 0 <= m < |s| && s[m] == y;
    if m == 0 {
      LexLeRefl(key(y));
    }
  }

  lemma SortedTail(key: string -> string, s: seq<string>)
    requires SortedBy(key, s) && |s| > 0
    ensures SortedBy(key, s[1..])
  {
    forall i, j | 0 <= i < j < |s| - 1 ensures LexLe(key(s[1..][i]), key(s[1..][j])) {
      assert s[1..][i] == s[i + 1] && s[1..][j] == s[j + 1];
    }
  }

  lemma {:induction false} InsertSorted(key: string -> string, x: string, s: seq<string>)
    requires SortedBy(key, s)
    ensures SortedBy(key, Insert(key, x, s))
  {
    var r := Insert(key, x, s);
    if |s| == 0 {
    } else if LexLe(key(s[0]), key(x)) {
      var t := Insert(key, x, s[1..]);
      SortedTail(key, s);
      InsertSorted(key, x, s[1..]);
      InsertPerm(key, x, s[1..]);
      forall j | 0 < j < |r| ensures LexLe(key(r[0]), key(r[j])) {
        assert r[j] == t[j - 1];
        assert r[j] in multiset(t);
        if r[j] != x {
          assert r[j] in s[1..];
          var m :| 0 <= m < |s[1..]| && s[1..][m] == r[j];
          assert s[m + 1] == r[j];
        }
      }
    } else {
      LexLeTotal(key(x), key(s[0]));
      forall j | 1 < j < |r| ensures LexLe(key(r[0]), key(r[j])) {
        assert r[j] == s[j - 1];
        LexLeTrans(key(x), key(s[0]), key(s[j - 1]));
      }
    }
  }

  lemma {:induction false} InsertStable(key: string -> string, x: string, s: seq<string>, k: string)
    requires SortedBy(key, s)
    ensures KeyClass(key, k, Insert(key, x, s))
            == KeyClass(key, k, s) + (if key(x) == k then [x] else [])
  {
    var r := Insert(key, x, s);
    KeyClassSingle(key, k, x);
    if |s| == 0 {
      assert r == [x];
      assert KeyClass(key, k, s) == [];
    } else if LexLe(key(s[0]), key(x)) {
      var t := Insert(key, x, s[1..]);
      assert r == [s[0]] + t;
      SortedTail(key, s);
      InsertStable(key, x, s[1..], k);
      KeyClassAppend(key, k, [s[0]], t);
      KeyClassAppend(key, k, [s[0]], s[1..]);
      assert s == [s[0]] + s[1..];
    } else {
      KeyClassAppend(key, k, [x], s);
      if key(x) == k {
        KeyClassEmptyBelowHead(key, s, k);
      }
    }
  }

  /** A sorted list has no element whose key is below its first key. */
  lemma KeyClassEmptyBelowHead(key: string -> string, s: seq<string>, k: string)
    requires SortedBy(key, s) && |s| > 0 && !LexLe(key(s[0]), k)
    ensures KeyClass(key, k, s) == []
  {
    forall y | y in s ensures !HasKey(key, k)(y) {
      SortedHead(key, s, y);
    }
    FilterNone(HasKey(key, k), s);
  }

  /** Python's `sorted(xs, key=key)`: a permutation of `xs`, in
      nondecreasing key order, that keeps equal-key elements in their
      input order. */
  function SortBy(key: string -> string, xs: seq<string>): (r: seq<string>)
    ensures multiset(r) == multiset(xs)
    ensures SortedBy(key, r)
    ensures forall k :: KeyClass(key, k, r) == KeyClass(key, k, xs)
  {
    if |xs| == 0 then []
    else
      var n := |xs| - 1;
      var s := SortBy(key, xs[..n]);
      InsertPerm(key, xs[n], s);
      InsertSorted(key, xs[n], s);
      assert xs == xs[..n] + [xs[n]];
      forall k ensures KeyClass(key, k, Insert(key, xs[n], s)) == KeyClass(key, k, xs) {
        InsertStable(key, xs[n], s, k);
        KeyClassAppend(key, k, xs[..n], [xs[n]]);
        KeyClassSingle(key, k, xs[n]);
      }
      Insert(key, xs[n], s)
  }

  /** Sorting keeps exactly the elements it is given. */
  lemma SortByMembers(key: string -> string, xs: seq<string>)
    ensures forall x :: x in SortBy(key, xs) <==> x in xs
  {
    var r := SortBy(key, xs);
    forall x ensures x in r <==> x in xs {
      assert x in r <==> x in multiset(r);
      assert x in xs <==> x in multiset(xs);
    }
  }

  /** The last element of a key class is the last element listed with
      that key. */
  lemma {:induction false} LastOfKeyClass(key: string -> string, k: string, xs: seq<string>)
    requires |KeyClass(key, k, xs)| > 0
    ensures LastWith(key, k, xs) == Some(KeyClass(key, k, xs)[|KeyClass(key, k, xs)| - 1])
  {
    if |xs| > 0 {
      var n := |xs| - 1;
      var x := xs[n];
      assert xs == xs[..n] + [x];
      KeyClassAppend(key, k, xs[..n], [x]);
      KeyClassSingle(key, k, x);
      if key(x) != k {
        LastOfKeyClass(key, k, xs[..n]);
      }
    }
  }

  lemma {:induction false} InsertStrict(key: string -> string, x: string, s: seq<string>)
    requires StrictlyAscending(key, s)
    requires forall y :: y in s ==> key(y) != key(x)
    ensures StrictlyAscending(key, Insert(key, x, s))
  {
    var r := Insert(key, x, s);
    if |s| == 0 {
    } else if LexLe(key(s[0]), key(x)) {
      var t := Insert(key, x, s[1..]);
      assert StrictlyAscending(key, s[1..]) by {
        forall i, j | 0 <= i < j < |s| - 1 ensures LexLt(key(s[1..][i]), key(s[1..][j])) {
          assert s[1..][i] == s[i + 1] && s[1..][j] == s[j + 1];
        }
      }
      InsertStrict(key, x, s[1..]);
      InsertPerm(key, x, s[1..]);
      forall j | 0 < j < |r| ensures LexLt(key(r[0]), key(r[j])) {
        assert r[j] == t[j - 1];
        assert r[j] in multiset(t);
        if r[j] != x {
          assert r[j] in s[1..];
          var m :| 0 <= m < |s[1..]| && s[1..][m] == r[j];
          assert s[m + 1] == r[j];
        }
      }
    } else {
      LexLeTotal(key(x), key(s[0]));
      forall j | 1 < j < |r| ensures LexLt(key(r[0]), key(r[j])) {
        assert r[j] == s[j - 1];
        LexLeTrans(key(x), key(s[0]), key(s[j - 1]));
        assert s[j - 1] in s;
      }
    }
  }

  /** Sorting a list whose keys are pairwise distinct yields strictly
      increasing keys. */
  lemma {:induction false} SortByDistinct(key: string -> string, xs: seq<string>)
    requires DistinctBy(key, xs)
    ensures StrictlyAscending(key, SortBy(key, xs))
  {
    if |xs| > 0 {
      var n := |xs| - 1;
      var s := SortBy(key, xs[..n]);
      SortByDistinct(key, xs[..n]);
      forall y | y in s ensures key(y) != key(xs[n]) {
        assert y in multiset(xs[..n]);
        var m :| 0 <= m < n && xs[..n][m] == y;
      }
      InsertStrict(key, xs[n], s);
    }
  }
}
