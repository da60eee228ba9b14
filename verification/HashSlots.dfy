/** The contents of a GHashTable as a sequence of slots: what every slot keeps so that
    a probe from a key's first bucket finds it, and what the table means as a map. */
module HashSlots {
  import opened Arithmetic
  import opened Probing
  import opened Wrappers

  /** A GHashNode: key_hash 0 is an unused slot, 1 a tombstone, 2 and up a live entry. */
  datatype Slot<K, V> = Unused | Tombstone | Live(hash: nat, key: K, value: V)

  /** The user's hash and equality functions. */
  datatype Functions<!K> = Functions(hash: K -> nat, equal: (K, K) -> bool)

  /** Equality is an equivalence that the hash respects. */
  ghost predicate Consistent<K(!new)>(f: Functions<K>) {
    && (forall a :: f.equal(a, a))
    && (forall a, b :: f.equal(a, b) ==> f.equal(b, a))
    && (forall a, b, c {:trigger f.equal(a, b), f.equal(b, c)} :: f.equal(a, b) && f.equal(b, c) ==> f.equal(a, c))
    && (forall a, b :: f.equal(a, b) ==> f.hash(a) == f.hash(b))
  }

  /** The hash value stored in a node: 0 and 1 are taken. */
  function HashValue<K>(f: Functions<K>, key: K): (h: nat)
    ensures h >= 2
  {
    if f.hash(key) <= 1 then 2 else f.hash(key)
  }

  /** Slot `i` is reached from the first bucket of `hash` over used slots only. */
  ghost predicate Reached<K, V>(s: seq<Slot<K, V>>, start: nat, i: nat)
    requires |s| > 0
  {
    exists k :: 0 <= k < |s| && Probe(start, k, |s|) == i && UsedUpTo(s, start, k)
  }

  ghost predicate UsedUpTo<K, V>(s: seq<Slot<K, V>>, start: nat, k: nat)
    requires |s| > 0
  {
    forall j :: 0 <= j < k ==> !s[Probe(start, j, |s|)].Unused?
  }

  predicate Matches<K, V>(f: Functions<K>, x: Slot<K, V>, key: K) {
    x.Live? && f.equal(x.key, key)
  }

  ghost predicate SlotOk<K, V>(f: Functions<K>, s: seq<Slot<K, V>>, mod: nat, i: nat)
    requires mod > 0 && i < |s|
  {
    s[i].Live? ==> s[i].hash == HashValue(f, s[i].key) && Reached(s, s[i].hash % mod, i)
  }

  ghost predicate Unique<K, V>(f: Functions<K>, s: seq<Slot<K, V>>) {
    forall i, j :: 0 <= i < |s| && 0 <= j < |s| && i != j && s[i].Live? && s[j].Live? ==> !f.equal(s[i].key, s[j].key)
  }

  ghost predicate Table<K, V>(f: Functions<K>, s: seq<Slot<K, V>>, mod: nat) {
    && 0 < mod <= |s|
    && (forall i :: 0 <= i < |s| ==> SlotOk(f, s, mod, i))
    && Unique(f, s)
  }

  /** The entry for `key`: the stored key and value. */
  function Get<K, V>(f: Functions<K>, s: seq<Slot<K, V>>, key: K): Option<(K, V)> {
    if s == [] then None
    else if Matches(f, s[0], key) then Some((s[0].key, s[0].value))
    else Get(f, s[1..], key)
  }

  function LiveCount<K, V>(s: seq<Slot<K, V>>): nat {
    if s == [] then 0 else (if s[0].Live? then 1 else 0) + LiveCount(s[1..])
  }

  function UsedCount<K, V>(s: seq<Slot<K, V>>): (n: nat)
    ensures n <= |s|
  {
    if s == [] then 0 else (if s[0].Unused? then 0 else 1) + UsedCount(s[1..])
  }

  lemma {:induction false} GetAt<K(!new), V>(f: Functions<K>, s: seq<Slot<K, V>>, key: K, i: nat)
    requires Consistent(f) && Unique(f, s) && i < |s| && Matches(f, s[i], key)
    ensures Get(f, s, key) == Some((s[i].key, s[i].value))
  {
    if i > 0 {
      assert s[0].Live? ==> (f.equal(s[0].key, key) <==> f.equal(key, s[0].key));
      GetAt(f, s[1..], key, i - 1);
    }
  }

  lemma {:induction false} GetNone<K, V>(f: Functions<K>, s: seq<Slot<K, V>>, key: K)
    requires forall i :: 0 <= i < |s| ==> !Matches(f, s[i], key)
    ensures Get(f, s, key) == None
  {
    if s != [] { GetNone(f, s[1..], key); }
  }

  lemma {:induction false} GetSome<K, V>(f: Functions<K>, s: seq<Slot<K, V>>, key: K) returns (i: nat)
    requires Get(f, s, key).Some?
    ensures i < |s| && Matches(f, s[i], key) && Get(f, s, key) == Some((s[i].key, s[i].value))
  {
    if Matches(f, s[0], key) {
      i := 0;
    } else {
      i := GetSome(f, s[1..], key);
      i := i + 1;
    }
  }

  lemma {:induction false} CountsUpdate<K, V>(s: seq<Slot<K, V>>, i: nat, x: Slot<K, V>)
    requires i < |s|
    ensures LiveCount(s[i := x]) == LiveCount(s) - (if s[i].Live? then 1 else 0) + (if x.Live? then 1 else 0)
    ensures UsedCount(s[i := x]) == UsedCount(s) - (if s[i].Unused? then 0 else 1) + (if x.Unused? then 0 else 1)
  {
    if i == 0 {
      assert s[i := x][1..] == s[1..];
    } else {
      CountsUpdate(s[1..], i - 1, x);
      assert s[i := x][1..] == s[1..][i - 1 := x];
    }
  }

  lemma {:induction false} SomeUnused<K, V>(s: seq<Slot<K, V>>) returns (i: nat)
    requires UsedCount(s) < |s|
    ensures i < |s| && s[i].Unused?
  {
    if s[0].Unused? {
      i := 0;
    } else {
      i := SomeUnused(s[1..]);
      i := i + 1;
    }
  }

  /** A table that is not full has an unused slot on every probe sequence. */
  lemma ProbeEnds<K, V>(s: seq<Slot<K, V>>, start: nat, n: nat) returns (k: nat)
    requires |s| == Pow2(n) && UsedCount(s) < |s|
    ensures k < |s| && s[Probe(start, k, |s|)].Unused?
  {
    var i := SomeUnused(s);
    k := ProbesReach(start, i, n);
  }

  /** Where the probe of a missing key stops there is nothing for that key further on. */
  lemma ProbeMisses<K(!new), V>(f: Functions<K>, s: seq<Slot<K, V>>, mod: nat, key: K, step: nat)
    requires Consistent(f) && Table(f, s, mod) && step < |s|
    requires var start := HashValue(f, key) % mod;
             && s[Probe(start, step, |s|)].Unused?
             && forall j :: 0 <= j < step ==> !Matches(f, s[Probe(start, j, |s|)], key)
    ensures Get(f, s, key) == None
    ensures forall i :: 0 <= i < |s| ==> !Matches(f, s[i], key)
  {
    var start := HashValue(f, key) % mod;
    forall i | 0 <= i < |s| ensures !Matches(f, s[i], key) {
      assert SlotOk(f, s, mod, i);
      if s[i].Live? && s[i].hash == HashValue(f, key) {
        var k :| 0 <= k < |s| && Probe(start, k, |s|) == i && UsedUpTo(s, start, k);
        assert k <= step;
      }
    }
    GetNone(f, s, key);
  }

  /** Using more slots keeps every slot reached. */
  lemma StillReached<K, V>(s: seq<Slot<K, V>>, s': seq<Slot<K, V>>, start: nat, i: nat)
    requires |s| == |s'| > 0 && Reached(s, start, i)
    requires forall j :: 0 <= j < |s| && s'[j].Unused? ==> s[j].Unused?
    ensures Reached(s', start, i)
  {
    var k :| 0 <= k < |s| && Probe(start, k, |s|) == i && UsedUpTo(s, start, k);
    assert UsedUpTo(s', start, k);
  }

  /** A new entry is stored in a slot that is reached and not live. */
  lemma EntryAdded<K(!new), V>(f: Functions<K>, s: seq<Slot<K, V>>, mod: nat, i: nat, key: K, value: V)
    requires Consistent(f) && Table(f, s, mod) && i < |s| && !s[i].Live?
    requires Reached(s, HashValue(f, key) % mod, i)
    requires forall j :: 0 <= j < |s| ==> !Matches(f, s[j], key)
    ensures var s' := s[i := Live(HashValue(f, key), key, value)];
            && Table(f, s', mod)
            && forall k :: Get(f, s', k) == if f.equal(k, key) then Some((key, value)) else Get(f, s, k)
  {
    var s' := s[i := Live(HashValue(f, key), key, value)];
    forall j | 0 <= j < |s'| ensures SlotOk(f, s', mod, j) {
      assert SlotOk(f, s, mod, j);
      if j == i { StillReached(s, s', HashValue(f, key) % mod, i); }
      else if s[j].Live? { StillReached(s, s', s[j].hash % mod, j); }
    }
    assert Unique(f, s');
    forall k ensures Get(f, s', k) == if f.equal(k, key) then Some((key, value)) else Get(f, s, k) {
      GetUpdated(f, s, i, s'[i], k);
    }
  }

  /** Changing one slot changes the map at most at that slot's keys. */
  lemma GetUpdated<K(!new), V>(f: Functions<K>, s: seq<Slot<K, V>>, i: nat, x: Slot<K, V>, k: K)
    requires Consistent(f) && i < |s| && Unique(f, s) && Unique(f, s[i := x])
    ensures Get(f, s[i := x], k) ==
            if Matches(f, x, k) then Some((x.key, x.value))
            else if Matches(f, s[i], k) then None else Get(f, s, k)
  {
    var s' := s[i := x];
    if Matches(f, x, k) {
      GetAt(f, s', k, i);
    } else if Matches(f, s[i], k) {
      forall j | 0 <= j < |s'| ensures !Matches(f, s'[j], k) {
        assert s'[j].Live? ==> (f.equal(s'[j].key, k) <==> f.equal(k, s'[j].key));
      }
      GetNone(f, s', k);
    } else if Get(f, s, k).Some? {
      var j := GetSome(f, s, k);
      GetAt(f, s', k, j);
    } else {
      forall j | 0 <= j < |s| ensures !Matches(f, s[j], k) {
        if Matches(f, s[j], k) { GetAt(f, s, k, j); }
      }
      GetNone(f, s', k);
    }
  }

  /** The entry of an equal key gets a new value, and perhaps the new key. */
  lemma EntryReplaced<K(!new), V>(f: Functions<K>, s: seq<Slot<K, V>>, mod: nat, i: nat, key: K, stored: K, value: V)
    requires Consistent(f) && Table(f, s, mod) && i < |s| && Matches(f, s[i], key) && (stored == key || stored == s[i].key)
    ensures var s' := s[i := Live(s[i].hash, stored, value)];
            && Table(f, s', mod)
            && forall k :: Get(f, s', k) == if f.equal(k, key) then Some((stored, value)) else Get(f, s, k)
  {
    var s' := s[i := Live(s[i].hash, stored, value)];
    assert f.equal(stored, s[i].key) && f.equal(s[i].key, stored);
    forall j | 0 <= j < |s'| ensures SlotOk(f, s', mod, j) {
      assert SlotOk(f, s, mod, j);
      if s[j].Live? { StillReached(s, s', s[j].hash % mod, j); }
    }
    forall a, b | 0 <= a < |s'| && 0 <= b < |s'| && a != b && s'[a].Live? && s'[b].Live?
      ensures !f.equal(s'[a].key, s'[b].key)
    {
      assert !f.equal(s[a].key, s[b].key);
      assert f.equal(s[a].key, s'[a].key) && f.equal(s'[b].key, s[b].key);
    }
    forall k ensures Get(f, s', k) == if f.equal(k, key) then Some((stored, value)) else Get(f, s, k) {
      GetUpdated(f, s, i, s'[i], k);
      assert f.equal(k, key) <==> f.equal(stored, k);
      assert f.equal(s[i].key, k) <==> f.equal(stored, k);
    }
  }

  /** A tombstone takes the entry's place; probes still pass over it. */
  lemma EntryRemoved<K(!new), V>(f: Functions<K>, s: seq<Slot<K, V>>, mod: nat, i: nat, key: K)
    requires Consistent(f) && Table(f, s, mod) && i < |s| && Matches(f, s[i], key)
    ensures var s' := s[i := Tombstone];
            && Table(f, s', mod)
            && forall k :: Get(f, s', k) == if f.equal(k, key) then None else Get(f, s, k)
  {
    var s' := s[i := Tombstone];
    forall j | 0 <= j < |s'| ensures SlotOk(f, s', mod, j) {
      assert SlotOk(f, s, mod, j);
      if s'[j].Live? { StillReached(s, s', s[j].hash % mod, j); }
    }
    forall k ensures Get(f, s', k) == if f.equal(k, key) then None else Get(f, s, k) {
      GetUpdated(f, s, i, Tombstone, k);
      assert f.equal(k, key) <==> f.equal(s[i].key, k);
    }
  }

  /** Slots that are all unused hold nothing. */
  lemma {:induction false} NothingStored<K, V>(f: Functions<K>, s: seq<Slot<K, V>>, mod: nat)
    requires 0 < mod <= |s| && forall i :: 0 <= i < |s| ==> s[i].Unused?
    ensures Table(f, s, mod) && LiveCount(s) == 0 && UsedCount(s) == 0
    ensures forall k :: Get(f, s, k) == None
  {
    NothingCounted(s);
    forall k ensures Get(f, s, k) == None { GetNone(f, s, k); }
  }

  lemma {:induction false} NothingCounted<K, V>(s: seq<Slot<K, V>>)
    requires forall i :: 0 <= i < |s| ==> s[i].Unused?
    ensures LiveCount(s) == 0 && UsedCount(s) == 0
  {
    if s != [] { NothingCounted(s[1..]); }
  }

  /** One more slot of the old table has been looked at. */
  lemma {:induction false} PrefixGrows<K(!new), V>(f: Functions<K>, s: seq<Slot<K, V>>, i: nat)
    requires Consistent(f) && Unique(f, s) && i < |s|
    ensures LiveCount(s[..i + 1]) == LiveCount(s[..i]) + if s[i].Live? then 1 else 0
    ensures forall k :: Get(f, s[..i + 1], k) ==
              if Matches(f, s[i], k) then Some((s[i].key, s[i].value)) else Get(f, s[..i], k)
    ensures s[i].Live? ==> forall j :: 0 <= j < i ==> !Matches(f, s[j], s[i].key)
  {
    var a, b := s[..i], s[..i + 1];
    assert b == a + [s[i]];
    LiveAppend(a, s[i]);
    forall k ensures Get(f, b, k) == if Matches(f, s[i], k) then Some((s[i].key, s[i].value)) else Get(f, a, k) {
      if Matches(f, s[i], k) {
        GetAt(f, b, k, i);
      } else if Get(f, a, k).Some? {
        var j := GetSome(f, a, k);
        GetAt(f, b, k, j);
      } else {
        forall j | 0 <= j < |a| ensures !Matches(f, a[j], k) { if Matches(f, a[j], k) { GetAt(f, a, k, j); } }
        GetNone(f, b, k);
      }
    }
  }

  lemma {:induction false} LiveAppend<K, V>(a: seq<Slot<K, V>>, x: Slot<K, V>)
    ensures LiveCount(a + [x]) == LiveCount(a) + if x.Live? then 1 else 0
  {
    if a == [] {
      assert a + [x] == [x];
    } else {
      LiveAppend(a[1..], x);
      assert (a + [x])[1..] == a[1..] + [x];
    }
  }

  /** A key missing from the map is in no slot. */
  lemma MissingEverywhere<K(!new), V>(f: Functions<K>, s: seq<Slot<K, V>>, key: K)
    requires Consistent(f) && Unique(f, s) && Get(f, s, key) == None
    ensures forall i :: 0 <= i < |s| ==> !Matches(f, s[i], key)
  {
    forall i | 0 <= i < |s| ensures !Matches(f, s[i], key) {
      if Matches(f, s[i], key) { GetAt(f, s, key, i); }
    }
  }
}
