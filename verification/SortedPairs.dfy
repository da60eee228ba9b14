/** Key/value lists in strictly increasing key order, for any comparison function that
    orders the keys: what a balanced tree stands for. */
module SortedPairs {
  import opened Wrappers

  /** `cmp` is a total order up to keys it calls equal. */
  ghost predicate Order<K(!new)>(cmp: (K, K) -> int) {
    && (forall a, b :: cmp(a, b) < 0 <==> cmp(b, a) > 0)
    && (forall a, b, c {:trigger cmp(a, b), cmp(b, c)} :: cmp(a, b) <= 0 && cmp(b, c) <= 0 ==> cmp(a, c) <= 0)
  }

  lemma OrderStrict<K(!new)>(cmp: (K, K) -> int, a: K, b: K, c: K)
    requires Order(cmp)
    ensures cmp(a, a) == 0
    ensures cmp(a, b) < 0 && cmp(b, c) <= 0 ==> cmp(a, c) < 0
    ensures cmp(a, b) <= 0 && cmp(b, c) < 0 ==> cmp(a, c) < 0
    ensures cmp(a, b) == 0 && cmp(b, c) == 0 ==> cmp(a, c) == 0
    ensures cmp(a, b) > 0 && cmp(b, c) > 0 ==> cmp(a, c) > 0
    ensures cmp(a, b) == 0 <==> cmp(b, a) == 0
  {
    assert cmp(a, a) < 0 <==> cmp(a, a) > 0;
    assert cmp(a, b) < 0 <==> cmp(b, a) > 0;
    assert cmp(b, a) < 0 <==> cmp(a, b) > 0;
    assert cmp(b, c) < 0 <==> cmp(c, b) > 0;
    assert cmp(c, b) < 0 <==> cmp(b, c) > 0;
    assert cmp(a, c) < 0 <==> cmp(c, a) > 0;
    assert cmp(c, a) < 0 <==> cmp(a, c) > 0;
  }

  ghost predicate Increasing<K, V>(cmp: (K, K) -> int, s: seq<(K, V)>) {
    forall i, j :: 0 <= i < j < |s| ==> cmp(s[i].0, s[j].0) < 0
  }

  /** Every key of `s` is smaller than `key`; every key of `s` is larger. */
  ghost predicate AllSmaller<K, V>(cmp: (K, K) -> int, key: K, s: seq<(K, V)>) {
    forall i :: 0 <= i < |s| ==> cmp(key, s[i].0) > 0
  }

  ghost predicate AllLarger<K, V>(cmp: (K, K) -> int, key: K, s: seq<(K, V)>) {
    forall i :: 0 <= i < |s| ==> cmp(key, s[i].0) < 0
  }

  /** g_tree_insert and g_tree_replace as they act on the list. */
  function Inserted<K, V>(cmp: (K, K) -> int, s: seq<(K, V)>, key: K, value: V, replace: bool): seq<(K, V)> {
    if s == [] then [(key, value)]
    else if cmp(key, s[0].0) == 0 then [(if replace then key else s[0].0, value)] + s[1..]
    else if cmp(key, s[0].0) < 0 then [(key, value)] + s
    else [s[0]] + Inserted(cmp, s[1..], key, value, replace)
  }

  function Removed<K, V>(cmp: (K, K) -> int, s: seq<(K, V)>, key: K): seq<(K, V)> {
    if s == [] then []
    else if cmp(key, s[0].0) == 0 then s[1..]
    else [s[0]] + Removed(cmp, s[1..], key)
  }

  /** The value stored under a key equal to `key`. */
  function Lookup<K, V>(cmp: (K, K) -> int, s: seq<(K, V)>, key: K): Option<V> {
    if s == [] then None
    else if cmp(key, s[0].0) == 0 then Some(s[0].1)
    else Lookup(cmp, s[1..], key)
  }

  lemma {:induction false} InsertedBetween<K, V>(cmp: (K, K) -> int, a: seq<(K, V)>, b: seq<(K, V)>, key: K, value: V, replace: bool)
    requires AllSmaller(cmp, key, a) && AllLarger(cmp, key, b)
    ensures Inserted(cmp, a + b, key, value, replace) == a + [(key, value)] + b
  {
    if a == [] {
      assert a + b == b;
    } else {
      InsertedBetween(cmp, a[1..], b, key, value, replace);
      assert (a + b)[1..] == a[1..] + b && a == [a[0]] + a[1..];
    }
  }

  lemma {:induction false} InsertedAt<K, V>(cmp: (K, K) -> int, a: seq<(K, V)>, x: (K, V), b: seq<(K, V)>, key: K, value: V, replace: bool)
    requires AllSmaller(cmp, key, a) && cmp(key, x.0) == 0
    ensures Inserted(cmp, a + [x] + b, key, value, replace) == a + [(if replace then key else x.0, value)] + b
  {
    var s := a + [x] + b;
    if a == [] {
      assert s[1..] == b;
    } else {
      InsertedAt(cmp, a[1..], x, b, key, value, replace);
      assert s[1..] == a[1..] + [x] + b && a == [a[0]] + a[1..];
    }
  }

  lemma {:induction false} RemovedAt<K, V>(cmp: (K, K) -> int, a: seq<(K, V)>, x: (K, V), b: seq<(K, V)>, key: K)
    requires AllSmaller(cmp, key, a) && cmp(key, x.0) == 0
    ensures Removed(cmp, a + [x] + b, key) == a + b
    ensures Lookup(cmp, a + [x] + b, key) == Some(x.1)
  {
    var s := a + [x] + b;
    if a == [] {
      assert s[1..] == b && a + b == b;
    } else {
      RemovedAt(cmp, a[1..], x, b, key);
      assert s[1..] == a[1..] + [x] + b && a == [a[0]] + a[1..];
    }
  }

  lemma {:induction false} NothingAt<K, V>(cmp: (K, K) -> int, a: seq<(K, V)>, b: seq<(K, V)>, key: K)
    requires AllSmaller(cmp, key, a) && AllLarger(cmp, key, b)
    ensures Removed(cmp, a + b, key) == a + b
    ensures Lookup(cmp, a + b, key) == None
    decreases |a| + |b|
  {
    var s := a + b;
    if a != [] {
      NothingAt(cmp, a[1..], b, key);
      assert s[1..] == a[1..] + b;
    } else if b != [] {
      NothingAt(cmp, a, b[1..], key);
      assert s[1..] == a + b[1..];
    }
  }

  lemma Flip<K(!new)>(cmp: (K, K) -> int, a: K, b: K)
    requires Order(cmp)
    ensures cmp(a, b) > 0 <==> cmp(b, a) < 0
  {}

  lemma IncreasingBetween<K(!new), V>(cmp: (K, K) -> int, a: seq<(K, V)>, b: seq<(K, V)>, key: K, value: V)
    requires Order(cmp) && Increasing(cmp, a + b) && AllSmaller(cmp, key, a) && AllLarger(cmp, key, b)
    ensures Increasing(cmp, a + [(key, value)] + b)
  {
    hide Order;
    var s, t := a + b, a + [(key, value)] + b;
    forall i, j | 0 <= i < j < |t| ensures cmp(t[i].0, t[j].0) < 0 {
      if i == |a| {
        assert t[j] == b[j - |a| - 1];
      } else if j == |a| {
        assert t[i] == a[i];
        Flip(cmp, key, a[i].0);
      } else {
        var i', j' := if i < |a| then i else i - 1, if j < |a| then j else j - 1;
        assert t[i] == s[i'] && t[j] == s[j'];
      }
    }
  }

  lemma IncreasingAt<K(!new), V>(cmp: (K, K) -> int, a: seq<(K, V)>, x: (K, V), b: seq<(K, V)>, y: (K, V))
    requires Order(cmp) && Increasing(cmp, a + [x] + b) && cmp(y.0, x.0) == 0
    ensures Increasing(cmp, a + [y] + b) && Increasing(cmp, a + b)
  {
    var s, t := a + [x] + b, a + [y] + b;
    OrderStrict(cmp, y.0, x.0, x.0);
    forall i, j | 0 <= i < j < |t| ensures cmp(t[i].0, t[j].0) < 0 {
      assert cmp(s[i].0, s[j].0) < 0;
      OrderStrict(cmp, s[i].0, s[j].0, t[j].0);
      OrderStrict(cmp, t[i].0, s[i].0, t[j].0);
    }
    forall i, j | 0 <= i < j < |a + b| ensures cmp((a + b)[i].0, (a + b)[j].0) < 0 {
      var i', j' := if i < |a| then i else i + 1, if j < |a| then j else j + 1;
      assert (a + b)[i] == s[i'] && (a + b)[j] == s[j'];
    }
  }

  /** Inserting changes the map at exactly the given key. */
  lemma {:induction false} LookupInserted<K(!new), V>(cmp: (K, K) -> int, s: seq<(K, V)>, key: K, value: V, replace: bool, k: K)
    requires Order(cmp) && Increasing(cmp, s)
    ensures Lookup(cmp, Inserted(cmp, s, key, value, replace), k) ==
            if cmp(k, key) == 0 then Some(value) else Lookup(cmp, s, k)
  {
    if s != [] {
      var head := s[0].0;
      OrderStrict(cmp, k, key, head);
      OrderStrict(cmp, k, head, key);
      OrderStrict(cmp, key, head, k);
      var t := Inserted(cmp, s, key, value, replace);
      if cmp(key, head) == 0 {
        assert t[1..] == s[1..];
      } else if cmp(key, head) < 0 {
        assert t[1..] == s;
      } else {
        LookupInserted(cmp, s[1..], key, value, replace, k);
        assert t[1..] == Inserted(cmp, s[1..], key, value, replace);
      }
    }
  }

  /** Removing changes the map at exactly the given key. */
  lemma {:induction false} LookupRemoved<K(!new), V>(cmp: (K, K) -> int, s: seq<(K, V)>, key: K, k: K)
    requires Order(cmp) && Increasing(cmp, s)
    ensures Lookup(cmp, Removed(cmp, s, key), k) == if cmp(k, key) == 0 then None else Lookup(cmp, s, k)
  {
    if s != [] {
      var head, rest := s[0].0, s[1..];
      OrderStrict(cmp, k, key, head);
      OrderStrict(cmp, k, head, key);
      if cmp(key, head) == 0 {
        if cmp(k, key) == 0 { HeadOnly(cmp, s, k); }
      } else {
        LookupRemoved(cmp, rest, key, k);
        assert ([s[0]] + Removed(cmp, rest, key))[1..] == Removed(cmp, rest, key);
      }
    }
  }

  lemma HeadOnly<K(!new), V>(cmp: (K, K) -> int, s: seq<(K, V)>, k: K)
    requires Order(cmp) && Increasing(cmp, s) && s != [] && cmp(k, s[0].0) == 0
    ensures Lookup(cmp, s[1..], k) == None
  {
    forall i | 0 <= i < |s[1..]| ensures cmp(k, s[1..][i].0) < 0 { OrderStrict(cmp, k, s[0].0, s[i + 1].0); }
    NothingAt(cmp, [], s[1..], k);
    assert [] + s[1..] == s[1..];
  }

  lemma LargerFrom<K(!new), V>(cmp: (K, K) -> int, a: seq<(K, V)>, x: (K, V), b: seq<(K, V)>, key: K)
    requires Order(cmp) && Increasing(cmp, a + [x] + b) && cmp(key, x.0) < 0
    ensures AllLarger(cmp, key, [x] + b)
  {
    var s, z := a + [x] + b, [x] + b;
    forall i | 1 <= i < |z| ensures cmp(key, z[i].0) < 0 {
      assert s[|a|] == x && s[|a| + i] == z[i];
      OrderStrict(cmp, key, x.0, z[i].0);
    }
  }

  lemma SmallerUpTo<K(!new), V>(cmp: (K, K) -> int, a: seq<(K, V)>, x: (K, V), b: seq<(K, V)>, key: K)
    requires Order(cmp) && Increasing(cmp, a + [x] + b) && cmp(key, x.0) > 0
    ensures AllSmaller(cmp, key, a + [x])
  {
    var s := a + [x] + b;
    forall i | 0 <= i < |a| ensures cmp(key, a[i].0) > 0 {
      assert s[|a|] == x && s[i] == a[i];
      OrderStrict(cmp, a[i].0, x.0, key);
      OrderStrict(cmp, key, x.0, a[i].0);
    }
  }

  lemma SmallerBelow<K(!new), V>(cmp: (K, K) -> int, a: seq<(K, V)>, x: (K, V), b: seq<(K, V)>, key: K)
    requires Order(cmp) && Increasing(cmp, a + [x] + b) && cmp(key, x.0) == 0
    ensures AllSmaller(cmp, key, a)
  {
    var s := a + [x] + b;
    forall i | 0 <= i < |a| ensures cmp(key, a[i].0) > 0 {
      assert s[|a|] == x && s[i] == a[i];
      OrderStrict(cmp, key, x.0, key);
      OrderStrict(cmp, a[i].0, x.0, key);
    }
  }
}
