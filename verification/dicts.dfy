/** Python dicts from strings to strings, as insertion-ordered entry
    lists: assigning an existing key replaces its value in place, a new
    key is appended. */
module Dicts {
  import opened Wrappers
  import opened Seqs

  type Dict = seq<(string, string)>

  function Keys(d: Dict): set<string>
  {
    set e | e in d :: e.0
  }

  /** The keys in iteration order (`for k in d`). */
  function KeyList(d: Dict): (ks: seq<string>)
    ensures |ks| == |d|
    ensures forall i :: 0 <= i < |d| ==> ks[i] == d[i].0
  {
    seq(|d|, i requires 0 <= i < |d| => d[i].0)
  }

  /** The key list holds exactly the keys. */
  lemma KeyListMembers(d: Dict)
    ensures forall k :: k in KeyList(d) <==> k in Keys(d)
  {
    forall k | k in Keys(d) ensures k in KeyList(d) {
      var e :| e in d && e.0 == k;
      var i :| 0 <= i < |d| && d[i] == e;
      assert KeyList(d)[i] == k;
    }
  }

  predicate UniqueKeys(d: Dict)
  {
    forall i, j :: 0 <= i < j < |d| ==> d[i].0 != d[j].0
  }

  /** Every entry's key is `key` of its value. */
  predicate KeyedBy(key: string -> string, d: Dict)
  {
    forall e :: e in d ==> key(e.1) == e.0
  }

  /** `d.get(k)`. */
  function Get(d: Dict, k: string): (r: Option<string>)
    ensures r.Some? ==> (k, r.value) in d
    ensures r.None? <==> k !in Keys(d)
  {
    if |d| == 0 then None
    else if d[0].0 == k then Some(d[0].1)
    else
      var r := Get(d[1..], k);
      assert d == [d[0]] + d[1..];
      r
  }

  /** With unique keys, the entry for `k` is the one `Get` finds. */
  lemma GetUnique(d: Dict, k: string, v: string)
    requires UniqueKeys(d) && (k, v) in d
    ensures Get(d, k) == Some(v)
  {
    if d[0] != (k, v) {
      assert (k, v) in d[1..];
      assert UniqueKeys(d[1..]) by {
        forall i, j | 0 <= i < j < |d| - 1 ensures d[1..][i].0 != d[1..][j].0 {
          assert d[1..][i] == d[i + 1] && d[1..][j] == d[j + 1];
        }
      }
      GetUnique(d[1..], k, v);
    }
  }

  function IndexOfKey(d: Dict, k: string): (i: nat)
    requires k in Keys(d)
    ensures i < |d| && d[i].0 == k
  {
    if d[0].0 == k then 0
    else
      assert d == [d[0]] + d[1..];
      1 + IndexOfKey(d[1..], k)
  }

  /** `d[k] = v`. */
  function Put(d: Dict, k: string, v: string): (r: Dict)
    requires UniqueKeys(d)
    ensures UniqueKeys(r)
    ensures (k, v) in r
    ensures forall e :: e in r ==> e == (k, v) || (e in d && e.0 != k)
    ensures forall e :: e in d && e.0 != k ==> e in r
    ensures Keys(r) == Keys(d) + {k}
    ensures KeyList(r) == if k in Keys(d) then KeyList(d) else KeyList(d) + [k]
  {
    if k in Keys(d) then
      var i := IndexOfKey(d, k);
      var r := d[i := (k, v)];
      assert forall j :: 0 <= j < |d| && j != i ==> r[j] == d[j] && d[j].0 != k;
      assert forall e :: e in d && e.0 != k ==> e in r by {
        forall e | e in d && e.0 != k ensures e in r {
          var j :| 0 <= j < |d| && d[j] == e;
          assert r[j] == e;
        }
      }
      assert Keys(r) == Keys(d) by {
        assert forall e :: e in r ==> e.0 in Keys(d);
        forall x | x in Keys(d) ensures x in Keys(r) {
          var e :| e in d && e.0 == x;
          if x != k {
            assert e in r;
          } else {
            assert r[i] == (k, v);
          }
        }
      }
      r
    else
      var r := d + [(k, v)];
      assert KeyList(r) == KeyList(d) + [k];
      r
  }

  /** `{key(x): x for x in xs}`: one entry per distinct key, holding the
      last element listed with that key. */
  function Comprehension(key: string -> string, xs: seq<string>): (d: Dict)
    ensures UniqueKeys(d) && KeyedBy(key, d)
    ensures Keys(d) == Image(key, xs)
    ensures forall e :: e in d ==> LastWith(key, e.0, xs) == Some(e.1)
  {
    if |xs| == 0 then []
    else
      var pre, x := xs[..|xs| - 1], xs[|xs| - 1];
      var init := Comprehension(key, pre);
      var d := Put(init, key(x), x);
      assert xs == pre + [x];
      StepKeys(key, pre, x, init, d);
      StepLast(key, pre, x, init, d);
      d
  }

  /** Assigning `x` to its key keeps every entry keyed and extends the
      key set by `key(x)`. */
  lemma StepKeys(key: string -> string, pre: seq<string>, x: string, init: Dict, d: Dict)
    requires UniqueKeys(init) && KeyedBy(key, init) && Keys(init) == Image(key, pre)
    requires d == Put(init, key(x), x)
    ensures KeyedBy(key, d)
    ensures Keys(d) == Image(key, pre + [x])
  {
    ImageAppend(key, pre, [x]);
    ImageSingle(key, x);
  }

  /** After assigning `x` to its key, every entry holds the last element
      listed with its key in `pre + [x]`. */
  lemma StepLast(key: string -> string, pre: seq<string>, x: string, init: Dict, d: Dict)
    requires UniqueKeys(init)
    requires forall e :: e in init ==> LastWith(key, e.0, pre) == Some(e.1)
    requires d == Put(init, key(x), x)
    ensures forall e :: e in d ==> LastWith(key, e.0, pre + [x]) == Some(e.1)
  {
    forall e | e in d ensures LastWith(key, e.0, pre + [x]) == Some(e.1) {
      LastWithSnoc(key, e.0, pre, x);
    }
  }

  /** `[v for k, v in d.items() if k not in ex]`. */
  function ValuesExcept(d: Dict, ex: set<string>): seq<string>
  {
    if |d| == 0 then []
    else (if d[0].0 !in ex then [d[0].1] else []) + ValuesExcept(d[1..], ex)
  }

  lemma {:induction false} ValuesExceptFacts(key: string -> string, d: Dict, ex: set<string>)
    requires UniqueKeys(d) && KeyedBy(key, d)
    ensures forall v :: v in ValuesExcept(d, ex) ==> (key(v), v) in d && key(v) !in ex
    ensures Image(key, ValuesExcept(d, ex)) == Keys(d) - ex
    ensures DistinctBy(key, ValuesExcept(d, ex))
  {
    if |d| > 0 {
      var e, rest := d[0], d[1..];
      assert d == [e] + rest;
      UniqueTail(d);
      ValuesExceptFacts(key, rest, ex);
      var t := ValuesExcept(rest, ex);
      assert Keys(d) == {e.0} + Keys(rest);
      if e.0 in ex {
        assert ValuesExcept(d, ex) == t;
      } else {
        assert ValuesExcept(d, ex) == [e.1] + t;
        assert forall v :: v in t ==> key(v) != key(e.1);
        DistinctCons(key, e.1, t);
        ImageAppend(key, [e.1], t);
        ImageSingle(key, e.1);
      }
    }
  }

  /** The entries after the first keep unique keys, none of them the
      first entry's. */
  lemma UniqueTail(d: Dict)
    requires |d| > 0 && UniqueKeys(d)
    ensures UniqueKeys(d[1..])
    ensures forall e :: e in d[1..] ==> e.0 != d[0].0
  {
    var rest := d[1..];
    forall i, j | 0 <= i < j < |rest| ensures rest[i].0 != rest[j].0 {
      assert rest[i] == d[i + 1] && rest[j] == d[j + 1];
    }
    forall e | e in rest ensures e.0 != d[0].0 {
      var m :| 0 <= m < |rest| && rest[m] == e;
      assert d[m + 1] == e;
    }
  }

  /** A first element whose key no later element has keeps keys distinct. */
  lemma DistinctCons(key: string -> string, x: string, t: seq<string>)
    requires DistinctBy(key, t)
    requires forall v :: v in t ==> key(v) != key(x)
    ensures DistinctBy(key, [x] + t)
  {
    var r := [x] + t;
    forall i, j | 0 <= i < j < |r| ensures key(r[i]) != key(r[j]) {
      assert r[j] == t[j - 1];
      if i > 0 {
        assert r[i] == t[i - 1];
      } else {
        assert r[j] in t;
      }
    }
  }
}
