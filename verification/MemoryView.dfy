/** Guest memory as the list of mapped regions of uc.c, and what the guest sees through it. */
module MemoryView {
  import opened Words
  import opened Wrappers

  /** The fields of a RAM MemoryRegion that uc.c uses, with the host memory behind it:
      `off` bytes into the host allocation `buf`. */
  datatype Region = Region(addr: nat, size: nat, perms: nat, readonly: bool, prealloc: bool, buf: nat, off: nat)

  /** Host allocations. */
  type Host = map<nat, seq<Byte>>

  datatype Cell = Cell(value: Byte, perms: nat)

  /** Sum of two addresses in 64-bit arithmetic. */
  function Wrap(x: nat): (r: nat)
    requires x < 2 * WORD
    ensures r < WORD
  {
    if x < WORD then x else x - WORD
  }

  /** The k-th byte of a range that starts at `address`. */
  function Nth(address: nat, k: nat): (r: nat)
    requires address < WORD && k < WORD
    ensures r < WORD
  {
    Wrap(address + k)
  }

  /** The field mr->end: zero for a region that reaches the top of the address space. */
  function End(r: Region): (e: nat)
    requires r.addr + r.size <= WORD
    ensures e < WORD
  {
    Wrap(r.addr + r.size)
  }

  predicate RegionOk(r: Region) { 0 < r.size < WORD && r.addr + r.size <= WORD }

  predicate Holds(r: Region, a: nat) { r.addr <= a < r.addr + r.size }

  predicate Reaches(r: Region) { r.addr + r.size == WORD }

  ghost predicate Sorted(blocks: seq<Region>) {
    && (forall i :: 0 <= i < |blocks| ==> RegionOk(blocks[i]))
    && forall i, j :: 0 <= i < j < |blocks| ==> blocks[i].addr + blocks[i].size <= blocks[j].addr
  }

  ghost predicate Backed(r: Region, host: Host) {
    r.buf in host && r.off + r.size <= |host[r.buf]|
  }

  /** Every region has its host memory, and memory the engine allocated is never shared. */
  ghost predicate Stored(blocks: seq<Region>, host: Host) {
    && (forall i :: 0 <= i < |blocks| ==> Backed(blocks[i], host))
    && forall i, j :: 0 <= i < |blocks| && 0 <= j < |blocks| && i != j && !blocks[i].prealloc ==>
                        blocks[i].buf != blocks[j].buf
  }

  ghost predicate Hits(blocks: seq<Region>, i: int, a: nat) {
    0 <= i < |blocks| && Holds(blocks[i], a)
  }

  ghost predicate Mapped(blocks: seq<Region>, a: nat) {
    exists i :: Hits(blocks, i, a)
  }

  ghost function CellOf(r: Region, host: Host, a: nat): Cell
    requires Backed(r, host) && Holds(r, a)
  {
    Cell(host[r.buf][r.off + (a - r.addr)], r.perms)
  }

  /** What the guest sees at an address: a byte and its permissions, or nothing. */
  ghost function View(blocks: seq<Region>, host: Host, a: nat): Option<Cell>
    requires Stored(blocks, host)
  {
    if Mapped(blocks, a) then
      var i :| Hits(blocks, i, a);
      Some(CellOf(blocks[i], host, a))
    else None
  }

  lemma HitUnique(blocks: seq<Region>, i: int, j: int, a: nat)
    requires Sorted(blocks) && Hits(blocks, i, a) && Hits(blocks, j, a)
    ensures i == j
  {}

  lemma ViewIn(blocks: seq<Region>, host: Host, i: int, a: nat)
    requires Sorted(blocks) && Stored(blocks, host) && Hits(blocks, i, a)
    ensures View(blocks, host, a) == Some(CellOf(blocks[i], host, a))
  {
    var j :| Hits(blocks, j, a) && View(blocks, host, a) == Some(CellOf(blocks[j], host, a));
    HitUnique(blocks, i, j, a);
  }

  function Inserted(blocks: seq<Region>, i: nat, r: Region): seq<Region>
    requires i <= |blocks|
  {
    blocks[..i] + [r] + blocks[i..]
  }

  function Dropped(blocks: seq<Region>, i: nat): seq<Region>
    requires i < |blocks|
  {
    blocks[..i] + blocks[i + 1..]
  }

  /** `i` is where a region over addresses free so far belongs. */
  ghost predicate Fits(blocks: seq<Region>, i: nat, r: Region) {
    && i <= |blocks| && RegionOk(r)
    && (forall j :: 0 <= j < i ==> blocks[j].addr + blocks[j].size <= r.addr)
    && forall j :: i <= j < |blocks| ==> r.addr + r.size <= blocks[j].addr
  }

  lemma InsertSorted(blocks: seq<Region>, i: nat, r: Region)
    requires Sorted(blocks) && Fits(blocks, i, r)
    ensures Sorted(Inserted(blocks, i, r))
  {}

  lemma InsertStored(blocks: seq<Region>, host: Host, i: nat, r: Region)
    requires Stored(blocks, host) && i <= |blocks| && Backed(r, host)
    requires forall j :: 0 <= j < |blocks| && (!r.prealloc || !blocks[j].prealloc) ==> blocks[j].buf != r.buf
    ensures Stored(Inserted(blocks, i, r), host)
  {}

  lemma InsertHits(blocks: seq<Region>, i: nat, r: Region, a: nat)
    requires i <= |blocks|
    ensures Mapped(Inserted(blocks, i, r), a) <==> Holds(r, a) || Mapped(blocks, a)
  {
    var after := Inserted(blocks, i, r);
    if Mapped(after, a) {
      var j :| Hits(after, j, a);
      if j != i { assert Hits(blocks, if j < i then j else j - 1, a); }
    }
    if Holds(r, a) { assert Hits(after, i, a); }
    if Mapped(blocks, a) {
      var j :| Hits(blocks, j, a);
      assert Hits(after, if j < i then j else j + 1, a);
    }
  }

  lemma InsertView(blocks: seq<Region>, host: Host, i: nat, r: Region, a: nat)
    requires Sorted(blocks) && Stored(blocks, host) && Fits(blocks, i, r)
    requires Sorted(Inserted(blocks, i, r)) && Stored(Inserted(blocks, i, r), host) && Backed(r, host)
    ensures View(Inserted(blocks, i, r), host, a) ==
            if Holds(r, a) then Some(CellOf(r, host, a)) else View(blocks, host, a)
  {
    hide Sorted, Stored, View;
    var after := Inserted(blocks, i, r);
    InsertHits(blocks, i, r, a);
    if Holds(r, a) {
      ViewIn(after, host, i, a);
    } else if Mapped(blocks, a) {
      var j :| Hits(blocks, j, a);
      ViewIn(blocks, host, j, a);
      ViewIn(after, host, if j < i then j else j + 1, a);
    } else {
      ViewOut(blocks, host, a);
      ViewOut(after, host, a);
    }
  }

  lemma ViewOut(blocks: seq<Region>, host: Host, a: nat)
    requires Stored(blocks, host)
    ensures View(blocks, host, a) == None <==> !Mapped(blocks, a)
  {}

  lemma DropSorted(blocks: seq<Region>, i: nat)
    requires Sorted(blocks) && i < |blocks|
    ensures Sorted(Dropped(blocks, i))
  {}

  lemma DropView(blocks: seq<Region>, host: Host, i: nat, a: nat)
    requires Sorted(blocks) && Stored(blocks, host) && i < |blocks|
    requires Sorted(Dropped(blocks, i)) && Stored(Dropped(blocks, i), host)
    ensures View(Dropped(blocks, i), host, a) == if Holds(blocks[i], a) then None else View(blocks, host, a)
  {
    hide Sorted, Stored, View;
    var after := Dropped(blocks, i);
    if Mapped(blocks, a) {
      var j :| Hits(blocks, j, a);
      ViewIn(blocks, host, j, a);
      if j != i { ViewIn(after, host, if j < i then j else j - 1, a); }
    } else {
      ViewOut(blocks, host, a);
    }
    if Mapped(after, a) {
      var k :| Hits(after, k, a);
      assert Hits(blocks, if k < i then k else k + 1, a);
      if Hits(blocks, i, a) { HitUnique(blocks, i, if k < i then k else k + 1, a); }
    } else {
      ViewOut(after, host, a);
    }
  }

  /** Host memory that no region uses does not show. */
  lemma HostView(blocks: seq<Region>, host: Host, host': Host, a: nat)
    requires Stored(blocks, host)
    requires forall i :: 0 <= i < |blocks| ==> blocks[i].buf in host' && host'[blocks[i].buf] == host[blocks[i].buf]
    ensures Stored(blocks, host') && View(blocks, host', a) == View(blocks, host, a)
  {}

  function Flagged(blocks: seq<Region>, i: nat, perms: nat, readonly: bool): seq<Region>
    requires i < |blocks|
  {
    blocks[i := blocks[i].(perms := perms, readonly := readonly)]
  }

  lemma FlagOk(blocks: seq<Region>, host: Host, i: nat, perms: nat, readonly: bool)
    requires Sorted(blocks) && Stored(blocks, host) && i < |blocks|
    ensures Sorted(Flagged(blocks, i, perms, readonly)) && Stored(Flagged(blocks, i, perms, readonly), host)
  {}

  lemma FlagMapped(blocks: seq<Region>, i: nat, perms: nat, readonly: bool, a: nat)
    requires i < |blocks|
    ensures Mapped(Flagged(blocks, i, perms, readonly), a) <==> Mapped(blocks, a)
  {
    var after := Flagged(blocks, i, perms, readonly);
    assert forall j :: Hits(after, j, a) <==> Hits(blocks, j, a);
  }

  /** Changing flags of one region shows at its addresses only. */
  lemma FlagView(blocks: seq<Region>, host: Host, i: nat, perms: nat, readonly: bool, a: nat)
    requires Sorted(blocks) && Stored(blocks, host) && i < |blocks|
    requires Sorted(Flagged(blocks, i, perms, readonly)) && Stored(Flagged(blocks, i, perms, readonly), host)
    requires Backed(blocks[i], host)
    ensures View(Flagged(blocks, i, perms, readonly), host, a) ==
            if Holds(blocks[i], a) then Some(CellOf(blocks[i], host, a).(perms := perms)) else View(blocks, host, a)
  {
    hide View, Sorted, Stored;
    var after := Flagged(blocks, i, perms, readonly);
    FlagMapped(blocks, i, perms, readonly, a);
    if Holds(blocks[i], a) {
      assert Hits(after, i, a);
      ViewIn(after, host, i, a);
    } else if Mapped(blocks, a) {
      var j :| Hits(blocks, j, a);
      ViewIn(blocks, host, j, a);
      assert Hits(after, j, a);
      ViewIn(after, host, j, a);
    } else {
      ViewOut(blocks, host, a);
      ViewOut(after, host, a);
    }
  }
}
