/** GHashTable of glib_compat/glib_compat.c: open addressing with tombstones, updated in
    place. The `gint` fields stay below 2^31 as long as fewer than 2^29 entries are stored. */
module HashTable {
  import opened Arithmetic
  import opened HashSlots
  import opened Probing
  import opened Wrappers

  const HASH_TABLE_MIN_SHIFT: nat := 3
  const ENTRIES_LIMIT: nat := 0x2000_0000

  /** prime_mod: the modulus of the first bucket for each table size 2^shift. */
  const PRIME_MOD: seq<nat> := [
    1, 2, 3, 7, 13, 31, 61, 127, 251, 509, 1021, 2039, 4093, 8191, 16381, 32749, 65521,
    131071, 262139, 524287, 1048573, 2097143, 4194301, 8388593, 16777213, 33554393,
    67108859, 134217689, 268435399, 536870909, 1073741789, 2147483647]

  /** The smallest power of two that is more than twice the number of entries, and at least eight. */
  ghost predicate Roomy(size: nat, entries: nat) {
    (exists i: nat :: size == Pow2(i)) && size > 2 * entries && size >= 8 && (size == 8 || size / 2 <= 2 * entries)
  }

  lemma RoomyTight(size: nat, entries: nat)
    requires Roomy(size, entries)
    ensures size <= entries * 4 || size == 8
  {
    var i: nat :| size == Pow2(i);
    assert size > 8 ==> i > 0 && size == 2 * Pow2(i - 1);
  }

  /** The first slot on the probe sequence that holds no entry. */
  ghost predicate FirstFree<K, V>(s: seq<Slot<K, V>>, start: nat, index: nat)
    requires |s| > 0
  {
    exists j: nat :: FreeAfter(s, start, index, j)
  }

  ghost predicate FreeAfter<K, V>(s: seq<Slot<K, V>>, start: nat, index: nat, j: nat)
    requires |s| > 0
  {
    index == Probe(start, j, |s|) < |s| && !s[index].Live? && LiveUpTo(s, start, j)
  }

  ghost predicate LiveUpTo<K, V>(s: seq<Slot<K, V>>, start: nat, j: nat)
    requires |s| > 0
  {
    forall i :: 0 <= i < j ==> s[Probe(start, i, |s|)].Live?
  }

  lemma LiveMore<K, V>(s: seq<Slot<K, V>>, start: nat, j: nat)
    requires |s| > 0
    ensures LiveUpTo(s, start, 0)
    ensures LiveUpTo(s, start, j) && s[Probe(start, j, |s|)].Live? ==> LiveUpTo(s, start, j + 1)
  {}

  lemma UsedMore<K, V>(s: seq<Slot<K, V>>, start: nat, j: nat)
    requires |s| > 0
    ensures UsedUpTo(s, start, 0)
    ensures UsedUpTo(s, start, j) && !s[Probe(start, j, |s|)].Unused? ==> UsedUpTo(s, start, j + 1)
    ensures UsedUpTo(s, start, j) && j < |s| ==> Reached(s, start, Probe(start, j, |s|))
  {}

  lemma FreeFound<K, V>(s: seq<Slot<K, V>>, start: nat, index: nat, j: nat)
    requires |s| > 0 && FreeAfter(s, start, index, j)
    ensures FirstFree(s, start, index)
  {}

  /** Powers of two up to 2^10. */
  lemma {:induction false} SmallPowers(k: nat)
    requires k <= 10
    ensures Pow2(k) == [1, 2, 4, 8, 16, 32, 64, 128, 256, 512, 1024][k]
  {
    if k > 0 { SmallPowers(k - 1); }
  }

  /** Every modulus is at most its table size, so a first bucket is in range. */
  lemma ModFits(shift: nat)
    requires shift <= 30
    ensures |PRIME_MOD| == 32 && 0 < PRIME_MOD[shift] <= Pow2(shift) < 2 * PRIME_MOD[shift]
  {
    hide Pow2;
    if shift <= 10 {
      SmallPowers(shift);
    } else if shift <= 20 {
      ModFitsMiddle(shift);
    } else {
      ModFitsHigh(shift);
    }
  }

  lemma ModFitsMiddle(shift: nat)
    requires 10 < shift <= 20
    ensures 0 < PRIME_MOD[shift] <= Pow2(shift) < 2 * PRIME_MOD[shift]
  {
    hide Pow2;
    SmallPowers(10);
    Pow2Add(10, shift - 10);
    SmallPowers(shift - 10);
  }

  lemma ModFitsHigh(shift: nat)
    requires 20 < shift <= 30
    ensures 0 < PRIME_MOD[shift] <= Pow2(shift) < 2 * PRIME_MOD[shift]
  {
    hide Pow2;
    SmallPowers(10);
    Pow2Add(10, 10);
    Pow2Add(20, shift - 20);
    SmallPowers(shift - 20);
  }

  function Bits(n: nat): nat {
    if n == 0 then 0 else 1 + Bits(n / 2)
  }

  lemma {:induction false} BitsBound(n: nat)
    ensures n < Pow2(Bits(n)) && (n > 0 ==> Pow2(Bits(n) - 1) <= n)
  {
    if n > 0 { BitsBound(n / 2); }
  }

  /** g_hash_table_find_closest_shift: the number of bits of `n`. */
  method FindClosestShift(n: nat) returns (i: nat)
    ensures n < Pow2(i) && (n > 0 ==> i > 0 && Pow2(i - 1) <= n) && (n == 0 ==> i == 0)
  {
    var m := n;
    i := 0;
    while m != 0
      invariant i + Bits(m) == Bits(n)
      decreases m
    {
      m := m / 2;
      i := i + 1;
    }
    BitsBound(n);
  }

  class GHashTable<K(!new), V> {
    const f: Functions<K>
    var size: nat
    var mod: nat
    var mask: nat
    var nnodes: nat
    var noccupied: nat
    var nodes: array<Slot<K, V>>
    ghost var shift: nat

    ghost predicate Shape()
      reads this
    {
      && HASH_TABLE_MIN_SHIFT <= shift <= 30
      && size == Pow2(shift) && mod == PRIME_MOD[shift] && mask == size - 1
    }

    /** The invariant of a table between two calls. */
    ghost predicate Valid()
      reads this, nodes
    {
      && Consistent(f) && Shape() && nodes.Length == size
      && Table(f, nodes[..], mod)
      && nnodes == LiveCount(nodes[..]) && noccupied == UsedCount(nodes[..])
      && size > noccupied + noccupied / 16 && nnodes < ENTRIES_LIMIT
    }

    /** The table as a map: the stored key and value for `key`. */
    ghost function Entry(key: K): Option<(K, V)>
      reads this, nodes
    {
      Get(f, nodes[..], key)
    }

    /** g_hash_table_set_shift */
    method SetShift(s: nat)
      requires HASH_TABLE_MIN_SHIFT <= s <= 30
      modifies this`size, this`mod, this`mask, this`shift
      ensures shift == s && Shape()
    {
      ModFits(s);
      size := Pow2(s);
      mod := PRIME_MOD[s];
      shift := s;
      var m := 0;
      for i := 0 to s
        invariant m + 1 == Pow2(i)
      {
        m := m * 2 + 1;
      }
      mask := m;
    }

    /** g_hash_table_new_full */
    constructor (f: Functions<K>)
      requires Consistent(f)
      ensures Valid() && fresh(nodes) && this.f == f && nnodes == 0 && size == 8 && forall k :: Entry(k) == None
    {
      this.f := f;
      nnodes, noccupied := 0, 0;
      size, mod, mask, shift := 8, 7, 7, 3;
      nodes := new Slot<K, V>[8](_ => Unused);
      new;
      SetShift(HASH_TABLE_MIN_SHIFT);
      SmallPowers(3);
      NothingStored(f, nodes[..], mod);
    }

    /** g_hash_table_lookup_node: the probe ends within `size` steps, at the key's slot or
        at an unused one. */
    method LookupNode(key: K) returns (index: nat)
      requires Valid()
      ensures index < nodes.Length
      ensures if nodes[index].Unused? then Entry(key) == None else Matches(f, nodes[index], key)
    {
      hide Consistent, Table, Get, LiveCount, UsedCount, Pow2, Probe, UsedUpTo;
      ghost var s := nodes[..];
      var hash := HashValue(f, key);
      ModFits(shift);
      index := hash % mod;
      var step := 0;
      ghost var start := index;
      ghost var last := ProbeEnds(s, start, shift);
      ProbeStep(start, 0, size);
      while !nodes[index].Unused?
        invariant step <= last && index == Probe(start, step, size) < size
        invariant forall j :: 0 <= j < step ==> !Matches(f, s[Probe(start, j, size)], key)
        decreases last - step
      {
        if nodes[index].Live? && nodes[index].hash == hash && f.equal(nodes[index].key, key) {
          return;
        }
        NoMatch(f, s, mod, index, key);
        ProbeStep(start, step, size);
        step := step + 1;
        index := (index + step) % (mask + 1);
      }
      ProbeMisses(f, s, mod, key, step);
    }

    /** g_hash_table_lookup_node_for_insertion: the key's slot, or the first slot on its
        probe sequence that can take it. */
    method LookupNodeForInsertion(key: K) returns (index: nat, hash: nat)
      requires Valid()
      ensures index < nodes.Length && hash == HashValue(f, key)
      ensures nodes[index].Live? ==> Matches(f, nodes[index], key)
      ensures !nodes[index].Live? ==> Entry(key) == None && Reached(nodes[..], hash % mod, index)
      ensures !nodes[index].Live? ==> forall j :: 0 <= j < nodes.Length ==> !Matches(f, nodes[..][j], key)
      ensures !nodes[index].Live? ==> FirstFree(nodes[..], hash % mod, index)
    {
      hide Consistent, Table, Get, LiveCount, UsedCount, Pow2, Probe, LiveUpTo, FirstFree, Reached, UsedUpTo;
      ghost var s := nodes[..];
      hash := HashValue(f, key);
      ModFits(shift);
      index := hash % mod;
      var step := 0;
      var firstTombstone, haveTombstone := 0, false;
      ghost var found: nat := 0;
      ghost var start := index;
      ghost var last := ProbeEnds(s, start, shift);
      ProbeStep(start, 0, size);
      LiveMore(s, start, 0);
      UsedMore(s, start, 0);
      while !nodes[index].Unused?
        invariant step <= last && index == Probe(start, step, size) < size && UsedUpTo(s, start, step)
        invariant forall j :: 0 <= j < step ==> !Matches(f, s[Probe(start, j, size)], key)
        invariant haveTombstone ==> firstTombstone < size && s[firstTombstone].Tombstone? && Reached(s, start, firstTombstone)
        invariant haveTombstone ==> found < step && firstTombstone == Probe(start, found, size)
        invariant LiveUpTo(s, start, if haveTombstone then found else step)
        decreases last - step
      {
        LiveMore(s, start, step);
        UsedMore(s, start, step);
        if nodes[index].Live? && nodes[index].hash == hash {
          if f.equal(nodes[index].key, key) { return; }
        } else if nodes[index].Tombstone? && !haveTombstone {
          firstTombstone := index;
          haveTombstone := true;
          found := step;
        }
        NoMatch(f, s, mod, index, key);
        ProbeStep(start, step, size);
        step := step + 1;
        index := (index + step) % (mask + 1);
      }
      ProbeMisses(f, s, mod, key, step);
      UsedMore(s, start, step);
      if haveTombstone { index := firstTombstone; }
      FreeFound(s, start, index, if haveTombstone then found else step);
    }

    /** The inner loop of g_hash_table_resize: the first unused slot takes the entry. */
    method Store(newNodes: array<Slot<K, V>>, x: Slot<K, V>)
      requires Consistent(f) && Shape() && newNodes.Length == size && Table(f, newNodes[..], mod)
      requires UsedCount(newNodes[..]) < size && x.Live? && x.hash == HashValue(f, x.key)
      requires Get(f, newNodes[..], x.key) == None
      modifies newNodes
      ensures Table(f, newNodes[..], mod)
      ensures LiveCount(newNodes[..]) == old(LiveCount(newNodes[..])) + 1
      ensures UsedCount(newNodes[..]) == old(UsedCount(newNodes[..])) + 1
      ensures forall k :: Get(f, newNodes[..], k) ==
                if f.equal(k, x.key) then Some((x.key, x.value)) else old(Get(f, newNodes[..], k))
    {
      hide Consistent, Table, Get, LiveCount, UsedCount, Pow2, Reached;
      ghost var s := newNodes[..];
      ModFits(shift);
      var index := FindUnused(newNodes, x.hash);
      Stored(f, s, mod, index, x);
      newNodes[index] := x;
      assert newNodes[..] == s[index := x];
    }

    /** The first unused slot on a probe sequence. */
    method FindUnused(newNodes: array<Slot<K, V>>, hash: nat) returns (index: nat)
      requires Shape() && mod > 0 && newNodes.Length == size && UsedCount(newNodes[..]) < size
      ensures index < size && newNodes[index].Unused? && Reached(newNodes[..], hash % mod, index)
    {
      hide UsedCount, Pow2, Probe, UsedUpTo, Reached;
      ghost var s := newNodes[..];
      ModFits(shift);
      index := hash % mod;
      var step := 0;
      ghost var start := index;
      ghost var last := ProbeEnds(s, start, shift);
      ProbeStep(start, 0, size);
      UsedMore(s, start, 0);
      while !newNodes[index].Unused?
        invariant step <= last && index == Probe(start, step, size) < size && UsedUpTo(s, start, step)
        decreases last - step
      {
        UsedMore(s, start, step);
        ProbeStep(start, step, size);
        step := step + 1;
        index := (index + step) % (mask + 1);
      }
      UsedMore(s, start, step);
    }

    /** Everything of Valid() except that the table may be too full or too empty. */
    ghost predicate Stretched()
      reads this, nodes
    {
      && Consistent(f) && Shape() && nodes.Length == size
      && Table(f, nodes[..], mod)
      && nnodes == LiveCount(nodes[..]) && noccupied == UsedCount(nodes[..])
      && nnodes < ENTRIES_LIMIT
    }

    /** Moving entry `i` of the old slots keeps the new ones equal to the old ones so far. */
    method MoveEntry(newNodes: array<Slot<K, V>>, x: Slot<K, V>, ghost s: seq<Slot<K, V>>, ghost i: nat)
      requires Consistent(f) && Shape() && newNodes.Length == size && Table(f, newNodes[..], mod) && Unique(f, s)
      requires UsedCount(newNodes[..]) < size && i < |s| && x == s[i] && x.Live? && x.hash == HashValue(f, x.key)
      requires Get(f, s[..i], x.key) == None && forall k :: Get(f, newNodes[..], k) == Get(f, s[..i], k)
      modifies newNodes
      ensures Table(f, newNodes[..], mod)
      ensures LiveCount(newNodes[..]) == old(LiveCount(newNodes[..])) + 1
      ensures UsedCount(newNodes[..]) == old(UsedCount(newNodes[..])) + 1
      ensures LiveCount(s[..i + 1]) == LiveCount(s[..i]) + 1
      ensures forall k :: Get(f, newNodes[..], k) == Get(f, s[..i + 1], k)
    {
      hide Consistent, Table, Get, LiveCount, UsedCount, Pow2, HashValue, Shape, Unique;
      ghost var t := newNodes[..];
      PrefixGrows(f, s, i);
      SameClass(f, x.key);
      Store(newNodes, x);
      forall k ensures Get(f, newNodes[..], k) == Get(f, s[..i + 1], k) {
        assert Get(f, t, k) == Get(f, s[..i], k);
      }
    }

    /** The loop of g_hash_table_resize: all old entries, and only they, are in the new slots. */
    method MoveEntries(newNodes: array<Slot<K, V>>, oldSize: nat, ghost oldMod: nat)
      requires Consistent(f) && Shape() && newNodes.Length == size && Table(f, newNodes[..], mod)
      requires newNodes != nodes && nodes.Length == oldSize && Table(f, nodes[..], oldMod)
      requires LiveCount(newNodes[..]) == UsedCount(newNodes[..]) == 0 && LiveCount(nodes[..]) < size
      requires forall k :: Get(f, newNodes[..], k) == None
      modifies newNodes
      ensures Table(f, newNodes[..], mod)
      ensures LiveCount(newNodes[..]) == UsedCount(newNodes[..]) == LiveCount(nodes[..])
      ensures forall k :: Get(f, newNodes[..], k) == Get(f, nodes[..], k)
    {
      hide Consistent, Table, Get, LiveCount, UsedCount, Pow2, HashValue, Shape, Unique;
      ghost var s := nodes[..];
      TableUnique(f, s, oldMod);
      assert s[..0] == [];
      NothingStoredBefore(f, s);
      var i := 0;
      while i < oldSize
        invariant i <= oldSize && nodes[..] == s
        invariant Table(f, newNodes[..], mod)
        invariant LiveCount(newNodes[..]) == UsedCount(newNodes[..]) == LiveCount(s[..i])
        invariant forall k :: Get(f, newNodes[..], k) == Get(f, s[..i], k)
      {
        LiveSoFar(s, i);
        if nodes[i].Live? {
          FreshKey(f, s, oldMod, i);
          MoveEntry(newNodes, nodes[i], s, i);
        } else {
          PrefixGrows(f, s, i);
        }
        i := i + 1;
      }
      assert s[..oldSize] == s;
    }

    /** g_hash_table_resize: every entry moves to a table of the right size and the
        tombstones disappear. */
    method Resize()
      requires Stretched()
      modifies this`size, this`mod, this`mask, this`shift, this`nodes, this`noccupied
      ensures Valid() && fresh(nodes) && noccupied == nnodes && Roomy(size, nnodes)
      ensures forall k :: Entry(k) == old(Entry(k))
    {
      hide Consistent, Table, Get, LiveCount, UsedCount, Pow2, HashValue;
      var oldSize := size;
      var shift' := FindClosestShift(nnodes * 2);
      ShiftFits(nnodes, shift');
      SetShift(if shift' > HASH_TABLE_MIN_SHIFT then shift' else HASH_TABLE_MIN_SHIFT);
      ModFits(shift);
      var newNodes := new Slot<K, V>[size](_ => Unused);
      NothingStored(f, newNodes[..], mod);
      MoveEntries(newNodes, oldSize, old(mod));
      nodes := newNodes;
      noccupied := nnodes;
    }

    /** g_hash_table_maybe_resize */
    method MaybeResize()
      requires Stretched()
      modifies this`size, this`mod, this`mask, this`shift, this`nodes, this`noccupied
      ensures Valid() && (nodes == old(nodes) || fresh(nodes))
      ensures nodes == old(nodes) ==> nodes[..] == old(nodes[..])
      ensures forall k :: Entry(k) == old(Entry(k))
      ensures var wanted := (old(size) > nnodes * 4 && old(size) > 8) || old(size) <= old(noccupied) + old(noccupied) / 16;
              if wanted then fresh(nodes) && noccupied == nnodes && Roomy(size, nnodes)
              else nodes == old(nodes) && size == old(size) && noccupied == old(noccupied)
      ensures size <= nnodes * 4 || size == 8
    {
      SmallPowers(3);
      if (size > nnodes * 4 && size > Pow2(HASH_TABLE_MIN_SHIFT)) || size <= noccupied + noccupied / 16 {
        Resize();
        RoomyTight(size, nnodes);
      }
    }

    /** g_hash_table_insert_internal: with `keepNewKey` the new key replaces an equal one. */
    method InsertInternal(key: K, value: V, keepNewKey: bool)
      requires Valid() && nnodes + 1 < ENTRIES_LIMIT
      modifies this, nodes
      ensures Valid() && (nodes == old(nodes) || fresh(nodes))
      ensures nnodes == old(nnodes) + if old(Entry(key)).Some? then 0 else 1
      ensures forall k :: Entry(k) ==
                if f.equal(k, key) then Some((if old(Entry(key)).Some? && !keepNewKey then old(Entry(key)).value.0 else key, value))
                else old(Entry(k))
    {
      hide Consistent, Table, Get, LiveCount, UsedCount, Pow2, Reached, HashValue;
      ghost var s := nodes[..];
      TableUnique(f, s, mod);
      var index, hash := LookupNodeForInsertion(key);
      if nodes[index].Live? {
        GetAt(f, s, key, index);
        var stored := if keepNewKey then key else nodes[index].key;
        EntryReplaced(f, s, mod, index, key, stored, value);
        CountsUpdate(s, index, Live(s[index].hash, stored, value));
        nodes[index] := Live(nodes[index].hash, stored, value);
        assert nodes[..] == s[index := Live(s[index].hash, stored, value)];
      } else {
        var wasUnused := nodes[index].Unused?;
        EntryAdded(f, s, mod, index, key, value);
        CountsUpdate(s, index, Live(hash, key, value));
        nodes[index] := Live(hash, key, value);
        assert nodes[..] == s[index := Live(hash, key, value)];
        nnodes := nnodes + 1;
        if wasUnused {
          noccupied := noccupied + 1;
          MaybeResize();
        }
      }
    }

    /** g_hash_table_insert and g_hash_table_replace */
    method Insert(key: K, value: V)
      requires Valid() && nnodes + 1 < ENTRIES_LIMIT
      modifies this, nodes
      ensures Valid() && (nodes == old(nodes) || fresh(nodes))
      ensures forall k :: Entry(k) ==
                if f.equal(k, key) then Some((if old(Entry(key)).Some? then old(Entry(key)).value.0 else key, value))
                else old(Entry(k))
    {
      InsertInternal(key, value, false);
    }

    method Replace(key: K, value: V)
      requires Valid() && nnodes + 1 < ENTRIES_LIMIT
      modifies this, nodes
      ensures Valid() && (nodes == old(nodes) || fresh(nodes))
      ensures forall k :: Entry(k) == if f.equal(k, key) then Some((key, value)) else old(Entry(k))
    {
      InsertInternal(key, value, true);
    }

    /** g_hash_table_lookup */
    method Lookup(key: K) returns (value: Option<V>)
      requires Valid()
      ensures value == match Entry(key) case None => None case Some((_, v)) => Some(v)
    {
      hide Consistent, Table, Get, LiveCount, UsedCount, Pow2;
      TableUnique(f, nodes[..], mod);
      var index := LookupNode(key);
      if nodes[index].Unused? { return None; }
      GetAt(f, nodes[..], key, index);
      value := Some(nodes[index].value);
    }

    /** g_hash_table_remove_internal */
    method Remove(key: K) returns (removed: bool)
      requires Valid()
      modifies this, nodes
      ensures Valid() && (nodes == old(nodes) || fresh(nodes))
      ensures removed <==> old(Entry(key)).Some?
      ensures nnodes == old(nnodes) - if removed then 1 else 0
      ensures removed ==> size <= nnodes * 4 || size == 8
      ensures forall k :: Entry(k) == if f.equal(k, key) then None else old(Entry(k))
    {
      hide Consistent, Table, Get, LiveCount, UsedCount, Pow2, HashValue;
      ghost var s := nodes[..];
      TableUnique(f, s, mod);
      var index := LookupNode(key);
      if nodes[index].Unused? {
        NoEqualKey(f, s, key);
        return false;
      }
      GetAt(f, s, key, index);
      EntryRemoved(f, s, mod, index, key);
      CountsUpdate(s, index, Tombstone);
      nodes[index] := Tombstone;
      assert nodes[..] == s[index := Tombstone];
      nnodes := nnodes - 1;
      MaybeResize();
      removed := true;
    }

    /** g_hash_table_remove_all */
    method RemoveAll()
      requires Valid()
      modifies this, nodes
      ensures Valid() && (nodes == old(nodes) || fresh(nodes))
      ensures nnodes == 0 && size == 8 && forall k :: Entry(k) == None
    {
      hide Consistent, Table, Get, LiveCount, UsedCount, Pow2;
      TableUnique(f, nodes[..], mod);
      forall i | 0 <= i < nodes.Length { nodes[i] := Unused; }
      NothingStored(f, nodes[..], mod);
      nnodes, noccupied := 0, 0;
      MaybeResize();
    }
  }

  lemma Stored<K(!new), V>(f: Functions<K>, s: seq<Slot<K, V>>, mod: nat, i: nat, x: Slot<K, V>)
    requires Consistent(f) && Table(f, s, mod) && i < |s| && s[i].Unused? && x.Live? && x.hash == HashValue(f, x.key)
    requires Reached(s, x.hash % mod, i) && Get(f, s, x.key) == None
    ensures Table(f, s[i := x], mod)
    ensures LiveCount(s[i := x]) == LiveCount(s) + 1 && UsedCount(s[i := x]) == UsedCount(s) + 1
    ensures forall k :: Get(f, s[i := x], k) == if f.equal(k, x.key) then Some((x.key, x.value)) else Get(f, s, k)
  {
    hide Consistent, Get, LiveCount, UsedCount, Reached;
    TableUnique(f, s, mod);
    MissingEverywhere(f, s, x.key);
    EntryAdded(f, s, mod, i, x.key, x.value);
    CountsUpdate(s, i, x);
  }

  lemma TableUnique<K, V>(f: Functions<K>, s: seq<Slot<K, V>>, mod: nat)
    requires Table(f, s, mod)
    ensures Unique(f, s) && 0 < mod <= |s|
  {}

  /** A slot with another hash value does not hold an equal key. */
  lemma NoMatch<K(!new), V>(f: Functions<K>, s: seq<Slot<K, V>>, mod: nat, i: nat, key: K)
    requires Consistent(f) && Table(f, s, mod) && i < |s|
    requires !(s[i].Live? && s[i].hash == HashValue(f, key) && f.equal(s[i].key, key))
    ensures !Matches(f, s[i], key)
  {
    assert SlotOk(f, s, mod, i);
  }

  lemma ShiftFits(n: nat, i: nat)
    requires n < ENTRIES_LIMIT && n * 2 < Pow2(i) && (n > 0 ==> i > 0 && Pow2(i - 1) <= n * 2) && (n == 0 ==> i == 0)
    ensures i <= 30 && n * 2 < Pow2(if i > 3 then i else 3)
    ensures Roomy(Pow2(if i > 3 then i else 3), n)
  {
    SmallPowers(3);
    if i > 3 { Pow2Mono(3, i); }
    SmallPowers(10);
    Pow2Add(10, 10);
    Pow2Add(10, 20);
    if i > 30 { Pow2Mono(30, i - 1); }
    if i <= 3 { Pow2Mono(i, 3); }
  }

  lemma NothingStoredBefore<K, V>(f: Functions<K>, s: seq<Slot<K, V>>)
    ensures LiveCount(s[..0]) == 0 && forall k :: Get(f, s[..0], k) == None
  {}

  lemma {:induction false} LiveSoFar<K, V>(s: seq<Slot<K, V>>, i: nat)
    requires i <= |s|
    ensures LiveCount(s[..i]) <= LiveCount(s)
    decreases |s| - i
  {
    if i == |s| {
      assert s[..i] == s;
    } else {
      LiveSoFar(s, i + 1);
      assert s[..i + 1] == s[..i] + [s[i]];
      LiveAppend(s[..i], s[i]);
    }
  }

  /** The entry about to be moved is well formed and its key has not been moved yet. */
  lemma FreshKey<K(!new), V>(f: Functions<K>, s: seq<Slot<K, V>>, mod: nat, i: nat)
    requires Consistent(f) && Table(f, s, mod) && i < |s| && s[i].Live?
    ensures s[i].hash == HashValue(f, s[i].key) && Get(f, s[..i], s[i].key) == None
  {
    assert SlotOk(f, s, mod, i);
    forall j | 0 <= j < i ensures !Matches(f, s[..i][j], s[i].key) {}
    GetNone(f, s[..i], s[i].key);
  }

  lemma SameClass<K(!new)>(f: Functions<K>, key: K)
    requires Consistent(f)
    ensures forall k :: f.equal(k, key) <==> f.equal(key, k)
  {}

  /** If a key has no entry, no key equal to it has one. */
  lemma NoEqualKey<K(!new), V>(f: Functions<K>, s: seq<Slot<K, V>>, key: K)
    requires Consistent(f) && Unique(f, s) && Get(f, s, key) == None
    ensures forall k :: f.equal(k, key) ==> Get(f, s, k) == None
  {
    MissingEverywhere(f, s, key);
    forall k | f.equal(k, key) ensures Get(f, s, k) == None {
      forall i | 0 <= i < |s| ensures !Matches(f, s[i], k) {
        assert !Matches(f, s[i], key);
      }
      GetNone(f, s, k);
    }
  }
}
