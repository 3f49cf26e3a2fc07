/** The "what is still to do" question both content stages ask: the items
    of one folder whose key has no counterpart in the next folder, one per
    key, oldest key first. */
module Pending {
  import opened Wrappers
  import opened Seqs
  import opened Ordering
  import opened Dicts

  /** Reference definition of a pending list: for every key of `xs` not in
      `done`, the last element of `xs` listed with that key (the one a dict
      keyed by `key` keeps), in strictly increasing key order. */
  predicate IsPendingSet(key: string -> string, xs: seq<string>, done: set<string>, r: seq<string>)
  {
    && (forall i :: 0 <= i < |r| ==> LastWith(key, key(r[i]), xs) == Some(r[i]))
    && Image(key, r) == Image(key, xs) - done
    && StrictlyAscending(key, r)
  }

  /** Two lists in strictly increasing key order with the same keys have
      the same key at every position. */
  lemma {:induction false} AscendingKeysUnique(key: string -> string, a: seq<string>, b: seq<string>)
    requires StrictlyAscending(key, a) && StrictlyAscending(key, b)
    requires Image(key, a) == Image(key, b)
    ensures |a| == |b|
    ensures forall i :: 0 <= i < |a| ==> key(a[i]) == key(b[i])
  {
    assert |b| > 0 ==> key(b[0]) in Image(key, b);
    if |a| > 0 {
      assert key(a[0]) in Image(key, a);
      assert |b| > 0;
      HeadIsLeast(key, a, b[0]);
      HeadIsLeast(key, b, a[0]);
      LexLeAntisym(key(a[0]), key(b[0]));
      TailKeys(key, a);
      TailKeys(key, b);
      AscendingTail(key, a);
      AscendingTail(key, b);
      AscendingKeysUnique(key, a[1..], b[1..]);
      forall i | 0 < i < |a| ensures key(a[i]) == key(b[i]) {
        assert a[i] == a[1..][i - 1] && b[i] == b[1..][i - 1];
      }
    }
  }

  /** The head of a strictly ascending list has the least key of it. */
  lemma HeadIsLeast(key: string -> string, a: seq<string>, y: string)
    requires StrictlyAscending(key, a) && |a| > 0
    requires key(y) in Image(key, a)
    ensures LexLe(key(a[0]), key(y))
  {
    var x :| x in a && key(x) == key(y);
    var i :| 0 <= i < |a| && a[i] == x;
    if i == 0 {
      LexLeRefl(key(y));
    }
  }

  lemma AscendingTail(key: string -> string, a: seq<string>)
    requires StrictlyAscending(key, a) && |a| > 0
    ensures StrictlyAscending(key, a[1..])
  {
    forall i, j | 0 <= i < j < |a| - 1 ensures LexLt(key(a[1..][i]), key(a[1..][j])) {
      assert a[1..][i] == a[i + 1] && a[1..][j] == a[j + 1];
    }
  }

  /** Dropping the head of a strictly ascending list drops exactly its key. */
  lemma TailKeys(key: string -> string, a: seq<string>)
    requires StrictlyAscending(key, a) && |a| > 0
    ensures Image(key, a[1..]) == Image(key, a) - {key(a[0])}
  {
    assert a == [a[0]] + a[1..];
    forall x | x in a[1..] ensures key(x) != key(a[0]) {
      var j :| 0 <= j < |a[1..]| && a[1..][j] == x;
      assert a[j + 1] == x;
    }
  }

  /** The reference definition admits one list only: any two resolvers
      meeting it agree. */
  lemma PendingSetUnique(key: string -> string, xs: seq<string>, done: set<string>, a: seq<string>, b: seq<string>)
    requires IsPendingSet(key, xs, done, a) && IsPendingSet(key, xs, done, b)
    ensures a == b
  {
    AscendingKeysUnique(key, a, b);
    forall i | 0 <= i < |a| ensures a[i] == b[i] {
      assert LastWith(key, key(a[i]), xs) == Some(a[i]);
      assert LastWith(key, key(b[i]), xs) == Some(b[i]);
    }
  }

  /** The head of a pending list (the one item a run processes) has the
      least key among all items still to do, and the list is empty exactly
      when every key is done. */
  lemma PendingHeadIsOldest(key: string -> string, xs: seq<string>, done: set<string>, r: seq<string>)
    requires IsPendingSet(key, xs, done, r)
    ensures |r| == 0 <==> Image(key, xs) <= done
    ensures |r| > 0 ==> r[0] in xs && key(r[0]) !in done
    ensures |r| > 0 ==> forall x :: x in xs && key(x) !in done ==> LexLe(key(r[0]), key(x))
  {
    if |r| > 0 {
      assert key(r[0]) in Image(key, r);
      assert LastWith(key, key(r[0]), xs) == Some(r[0]);
      forall x | x in xs && key(x) !in done ensures LexLe(key(r[0]), key(x)) {
        assert key(x) in Image(key, xs);
        HeadIsLeast(key, r, x);
      }
    } else {
      assert Image(key, xs) - done == {};
      forall k | k in Image(key, xs) ensures k in done {
        assert k !in Image(key, xs) - done;
      }
    }
  }

  /** An element that holds the last entry for a key not in `done` is
      in the pending list. */
  lemma PendingMember(key: string -> string, xs: seq<string>, done: set<string>, r: seq<string>, x: string)
    requires IsPendingSet(key, xs, done, r)
    requires LastWith(key, key(x), xs) == Some(x) && key(x) !in done
    ensures x in r
  {
    assert key(x) in Image(key, xs);
    assert key(x) in Image(key, r);
    var y :| y in r && key(y) == key(x);
    var i :| 0 <= i < |r| && r[i] == y;
    assert LastWith(key, key(r[i]), xs) == Some(r[i]);
  }

  /** Values a dict comprehension kept, with the right keys, in strictly
      increasing key order, form a pending list. */
  lemma KeptValuesPending(key: string -> string, xs: seq<string>, done: set<string>, r: seq<string>)
    requires forall v :: v in r ==> (key(v), v) in Comprehension(key, xs)
    requires Image(key, r) == Image(key, xs) - done
    requires StrictlyAscending(key, r)
    ensures IsPendingSet(key, xs, done, r)
  {
    forall i | 0 <= i < |r| ensures LastWith(key, key(r[i]), xs) == Some(r[i]) {
      assert r[i] in r;
    }
  }

  /** Looking up, in a dict comprehension, keys in strictly increasing
      order that are exactly the open keys gives a pending list. */
  lemma LookedUpKeysPending(key: string -> string, xs: seq<string>, done: set<string>,
                            ks: seq<string>, r: seq<string>)
    requires StrictlyAscending(Id, ks)
    requires forall k :: k in ks <==> k in Image(key, xs) && k !in done
    requires |r| == |ks|
    requires forall i :: 0 <= i < |ks| ==> (ks[i], r[i]) in Comprehension(key, xs)
    ensures IsPendingSet(key, xs, done, r)
  {
    var d := Comprehension(key, xs);
    forall i | 0 <= i < |r| ensures key(r[i]) == ks[i] {
      assert (ks[i], r[i]) in d;
    }
    forall k ensures k in Image(key, r) <==> k in Image(key, xs) - done {
      if k in Image(key, r) {
        var i :| 0 <= i < |r| && key(r[i]) == k;
        assert ks[i] in ks;
      }
      if k in Image(key, xs) - done {
        var i :| 0 <= i < |ks| && ks[i] == k;
        assert key(r[i]) == k;
      }
    }
    forall v | v in r ensures (key(v), v) in d {
      var i :| 0 <= i < |r| && r[i] == v;
      assert (ks[i], r[i]) in d;
    }
    KeptValuesPending(key, xs, done, r);
  }
}
