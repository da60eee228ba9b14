/** What the operations of the guest memory map do to the regions, the host memory and the
    view of the guest, on plain values. */
module MemoryEffects {
  import opened Arithmetic
  import opened MemoryView
  import opened Words
  import opened Wrappers

  const INT_MAX: nat := 0x7FFF_FFFF
  const MEM_BLOCK_INCR: nat := 32

  /** Room for the regions, and for a whole last increment of them. */
  ghost predicate Roomy(count: nat, capacity: nat) {
    (count + MEM_BLOCK_INCR - 1) / MEM_BLOCK_INCR * MEM_BLOCK_INCR <= capacity
  }

  lemma RoomForOne(count: nat, capacity: nat)
    requires count % MEM_BLOCK_INCR == 0 ==> capacity == count + MEM_BLOCK_INCR
    requires Roomy(count, capacity)
    ensures count + 1 <= capacity && Roomy(count + 1, capacity)
  {}

  lemma RoomGrows(count: nat)
    requires count % MEM_BLOCK_INCR == 0
    ensures Roomy(count, count + MEM_BLOCK_INCR)
  {}

  lemma RoomShrinks(count: nat, capacity: nat)
    requires Roomy(count + 1, capacity)
    ensures Roomy(count, capacity)
  {}

  /** What a split keeps of a region's bytes: a copy, or the caller's own memory. */
  datatype Backup = Copied(bytes: seq<Byte>) | Pointer(buf: nat, off: nat)

  datatype Error = OK | NOMEM | ARG | MAP | READ_UNMAPPED | WRITE_UNMAPPED

  predicate Writable(perms: nat) { perms / 2 % 2 == 1 }

  predicate Executable(perms: nat) { perms / 4 % 2 == 1 }

  /** The permission bits: 1 to read, 2 to write, 4 to execute. */
  lemma PermissionBits(perms: nat)
    requires perms < 8
    ensures Writable(perms) <==> perms in {2, 3, 6, 7}
    ensures Executable(perms) <==> perms in {4, 5, 6, 7}
  {}

  /** Every byte of the `size` bytes from `address` on, modulo 2^64, is mapped. */
  ghost predicate AllMapped(blocks: seq<Region>, address: nat, size: nat)
    requires address < WORD && size < WORD
  {
    forall k :: 0 <= k < size ==> Mapped(blocks, Nth(address, k))
  }

  /** Address `a` is one of the `size` bytes from `address` on, modulo 2^64. */
  predicate InRange(a: nat, address: nat, size: nat)
    requires address < WORD && size < WORD
  {
    a < WORD && (address <= a < address + size || a + WORD < address + size)
  }

  /** Guest address `a` is backed by byte `o` of host allocation `b`. */
  ghost predicate Lands(blocks: seq<Region>, a: nat, b: nat, o: nat) {
    exists i :: Hits(blocks, i, a) && blocks[i].buf == b && blocks[i].off + (a - blocks[i].addr) == o
  }

  /** Some byte of the range is backed by byte `o` of allocation `b`. */
  ghost predicate Touched(blocks: seq<Region>, address: nat, from: nat, to: nat, b: nat, o: nat)
    requires address < WORD && to < WORD
  {
    exists k :: from <= k < to && Lands(blocks, Nth(address, k), b, o)
  }

  /** Byte `k` of the range is backed by that byte, and no later one is. */
  ghost predicate Last(blocks: seq<Region>, address: nat, k: nat, to: nat, b: nat, o: nat)
    requires address < WORD && k < to < WORD
  {
    Lands(blocks, Nth(address, k), b, o) && !Touched(blocks, address, k + 1, to, b, o)
  }

  ghost predicate SameSizes(before: Host, after: Host) {
    before.Keys == after.Keys && forall b :: b in before ==> |after[b]| == |before[b]|
  }

  /** The host memory after a guest write: every byte not behind the range is as before, and
      a byte behind it holds what was written there last. */
  ghost predicate Written(blocks: seq<Region>, before: Host, after: Host, address: nat, bytes: seq<Byte>)
    requires address < WORD && |bytes| < WORD
  {
    && SameSizes(before, after)
    && (forall b, o :: b in before && 0 <= o < |before[b]| && !Touched(blocks, address, 0, |bytes|, b, o) ==>
          after[b][o] == before[b][o])
    && forall k: nat, b, o :: k < |bytes| && b in before && 0 <= o < |before[b]| && Last(blocks, address, k, |bytes|, b, o)
         ==> after[b][o] == bytes[k]
  }

  /** MIN(left, mr->end - address) in 64-bit arithmetic: how far one step gets. */
  function ChunkLength(left: nat, r: Region, a: nat): (len: nat)
    requires RegionOk(r) && Holds(r, a) && 0 < left
    ensures 0 < len <= left && a + len <= r.addr + r.size
    ensures len == left || a + len == r.addr + r.size
  {
    Min(left, Wrap(End(r) + WORD - a))
  }

  function Rounded(size: nat, page: nat): (r: nat)
    requires page > 0
    ensures size <= r < size + page && r % page == 0
  {
    DivModEq(size + page - 1, page);
    DivModUnique((size + page - 1) / page * page, (size + page - 1) / page, 0, page);
    (size + page - 1) / page * page
  }

  /** A multiple of a multiple of the page size is not rounded. */
  lemma RoundedWhole(size: nat, unit: nat, page: nat)
    requires page > 0 && unit > 0 && size % unit == 0 && unit % page == 0
    ensures Rounded(size, page) == size
  {
    var q, c := size / unit, unit / page;
    DivModEq(size, unit);
    DivModEq(unit, page);
    assert q * (c * page) == q * c * page;
    DivModUnique(size + page - 1, q * c, page - 1, page);
  }

  ghost predicate HasRegion(blocks: seq<Region>, addr: nat, size: nat) {
    exists i :: 0 <= i < |blocks| && blocks[i].addr == addr && blocks[i].size == size
  }

  ghost predicate HasFresh(blocks: seq<Region>, addr: nat, size: nat, perms: nat, host: Host) {
    exists i :: 0 <= i < |blocks| && Fresh(blocks[i], addr, size, perms, host)
  }

  ghost predicate Fresh(r: Region, addr: nat, size: nat, perms: nat, host: Host) {
    r == Region(addr, size, perms, !Writable(perms), false, r.buf, 0) && r.buf !in host
  }

  /** Host memory that belongs to the caller. */
  ghost predicate NotOwned(blocks: seq<Region>, b: nat) {
    forall j :: 0 <= j < |blocks| && !blocks[j].prealloc ==> blocks[j].buf != b
  }

  /** The caller's host memory is untouched, and the engine does not claim it. */
  ghost predicate UserKept(b0: seq<Region>, h0: Host, b1: seq<Region>, h1: Host) {
    forall b :: b in h0 && NotOwned(b0, b) ==> b in h1 && h1[b] == h0[b] && NotOwned(b1, b)
  }

  /** Every region was there before or lies between `lo` and `hi`. */
  ghost predicate Pieces(b0: seq<Region>, b1: seq<Region>, lo: nat, hi: nat) {
    forall i :: 0 <= i < |b1| ==>
      HasRegion(b0, b1[i].addr, b1[i].size) || (lo <= b1[i].addr && b1[i].addr + b1[i].size <= hi)
  }

  /** One region was added. */
  ghost predicate Grown(b0: seq<Region>, h0: Host, b1: seq<Region>, h1: Host, addr: nat, size: nat) {
    && UserKept(b0, h0, b1, h1) && Pieces(b0, b1, addr, addr + size)
    && HasRegion(b1, addr, size) && forall x, n :: HasRegion(b0, x, n) ==> HasRegion(b1, x, n)
  }

  /** The same regions, except that protected ones may have become read-only. */
  ghost predicate SameRegions(before: seq<Region>, after: seq<Region>) {
    && |before| == |after|
    && forall i :: 0 <= i < |before| ==>
         || after[i] == before[i]
         || (!Writable(before[i].perms) && after[i] == before[i].(readonly := true))
  }

  function WithPerms(c: Option<Cell>, perms: nat): Option<Cell> {
    match c
    case None => None
    case Some(cell) => Some(cell.(perms := perms))
  }

  /** Exactly the addresses from `lo` to `hi` have new permissions. */
  ghost predicate Repermed(b0: seq<Region>, h0: Host, b1: seq<Region>, h1: Host, lo: nat, hi: nat, perms: nat) {
    && Stored(b0, h0) && Stored(b1, h1)
    && forall a: nat :: View(b1, h1, a) == if lo <= a < hi then WithPerms(View(b0, h0, a), perms) else View(b0, h0, a)
  }

  /** Exactly the first `count` bytes of the range have the new permissions. */
  ghost predicate Protecting(b0: seq<Region>, h0: Host, b: seq<Region>, h: Host, address: nat, count: nat, perms: nat)
    requires address < WORD && count < WORD
  {
    && Stored(b0, h0) && Stored(b, h)
    && forall a: nat :: View(b, h, a) == if InRange(a, address, count) then WithPerms(View(b0, h0, a), perms) else View(b0, h0, a)
  }

  /** What a successful uc_mem_protect does: the range has the new permissions, and with it a
      region that reaches the top of memory and is only partly inside. No content changes. */
  ghost predicate Protected(b0: seq<Region>, h0: Host, b: seq<Region>, h: Host, address: nat, size: nat, perms: nat)
    requires address < WORD && size < WORD
  {
    && Stored(b0, h0) && Stored(b, h)
    && forall a: nat ::
         View(b, h, a) ==
         if InRange(a, address, size) || Cut(b0, a, address, size) then WithPerms(View(b0, h0, a), perms) else View(b0, h0, a)
  }

  ghost predicate ExecutableAt(b: seq<Region>, h: Host, a: nat)
    requires Stored(b, h)
  {
    View(b, h, a).Some? && Executable(View(b, h, a).value.perms)
  }

  /** Some byte of the range may be executed. */
  ghost predicate ExecutableIn(b: seq<Region>, h: Host, address: nat, size: nat)
    requires Stored(b, h) && address < WORD && size < WORD
  {
    exists k: nat :: k < size && ExecutableAt(b, h, Nth(address, k))
  }

  lemma PartMapped(b0: seq<Region>, h0: Host, b1: seq<Region>, h1: Host, mr: Region, addr: nat, len: nat)
    requires SplitDone(b0, h0, b1, h1, mr, addr, len, false) && len > 0
    ensures Mapped(b1, addr)
  {
    var i :| 0 <= i < |b1| && b1[i].addr == addr && b1[i].size == len;
    assert Hits(b1, i, addr);
  }

  /** The region found after a split is the part, with the old permissions. */
  lemma SplitPart(b0: seq<Region>, h0: Host, b1: seq<Region>, h1: Host, mr: Region, addr: nat, len: nat, j: nat)
    requires Sorted(b0) && Stored(b0, h0) && Sorted(b1) && Stored(b1, h1) && mr in b0 && Holds(mr, addr) && len > 0
    requires SplitDone(b0, h0, b1, h1, mr, addr, len, false) && Hits(b1, j, addr)
    ensures b1[j].addr == addr && b1[j].size == len && b1[j].perms == mr.perms
    ensures Pieces(b0, b1, mr.addr, mr.addr + mr.size) && Erased(b0, h0, b1, h1, 0, 0)
  {
    hide View;
    var i :| 0 <= i < |b1| && b1[i].addr == addr && b1[i].size == len;
    assert Hits(b1, i, addr);
    HitUnique(b1, i, j, addr);
    var m :| 0 <= m < |b0| && b0[m] == mr;
    assert Hits(b0, m, addr);
    ViewIn(b1, h1, j, addr);
    ViewIn(b0, h0, m, addr);
  }

  lemma FlagRepermed(b: seq<Region>, h: Host, i: nat, perms: nat, readonly: bool)
    requires Sorted(b) && Stored(b, h) && i < |b|
    requires Sorted(Flagged(b, i, perms, readonly)) && Stored(Flagged(b, i, perms, readonly), h)
    ensures Repermed(b, h, Flagged(b, i, perms, readonly), h, b[i].addr, b[i].addr + b[i].size, perms)
    ensures Pieces(b, Flagged(b, i, perms, readonly), 0, 0) && UserKept(b, h, Flagged(b, i, perms, readonly), h)
  {
    hide View, Sorted, Stored;
    var after := Flagged(b, i, perms, readonly);
    RegionFacts(b, h, i);
    forall a: nat ensures View(after, h, a) == if Holds(b[i], a) then WithPerms(View(b, h, a), perms) else View(b, h, a) {
      FlagView(b, h, i, perms, readonly, a);
      if Holds(b[i], a) {
        assert Hits(b, i, a);
        ViewIn(b, h, i, a);
      }
    }
    forall j | 0 <= j < |after| ensures HasRegion(b, after[j].addr, after[j].size) {
      assert b[j].addr == after[j].addr && b[j].size == after[j].size;
    }
    forall x | NotOwned(b, x) ensures NotOwned(after, x) {
      assert forall j :: 0 <= j < |b| ==> after[j].prealloc == b[j].prealloc && after[j].buf == b[j].buf;
    }
  }

  lemma SplitRepermed(b0: seq<Region>, h0: Host, b1: seq<Region>, h1: Host, b2: seq<Region>, mr: Region, addr: nat, len: nat, perms: nat)
    requires Erased(b0, h0, b1, h1, 0, 0) && Repermed(b1, h1, b2, h1, addr, addr + len, perms)
    requires Sorted(b2) && Pieces(b0, b1, mr.addr, mr.addr + mr.size) && Pieces(b1, b2, 0, 0)
    ensures Repermed(b0, h0, b2, h1, addr, addr + len, perms) && Pieces(b0, b2, mr.addr, mr.addr + mr.size)
  {
    assert Repermed(b0, h0, b2, h1, addr, addr + len, perms) by {
      hide View, Sorted, Stored;
      forall a: nat ensures View(b2, h1, a) ==
          if addr <= a < addr + len then WithPerms(View(b0, h0, a), perms) else View(b0, h0, a) {
        assert View(b1, h1, a) == View(b0, h0, a);
      }
    }
    forall i | 0 <= i < |b2| ensures
        HasRegion(b0, b2[i].addr, b2[i].size) || (mr.addr <= b2[i].addr && b2[i].addr + b2[i].size <= mr.addr + mr.size) {
      assert RegionOk(b2[i]) && HasRegion(b1, b2[i].addr, b2[i].size);
      var j :| 0 <= j < |b1| && b1[j].addr == b2[i].addr && b1[j].size == b2[i].size;
    }
  }

  lemma ProtectingStart(b: seq<Region>, h: Host, address: nat, perms: nat)
    requires Stored(b, h) && address < WORD
    ensures Protecting(b, h, b, h, address, 0, perms) && Frontier(b, b, address, 0) && !ExecutableIn(b, h, address, 0)
  {
    hide Stored, View;
  }

  lemma ProtectingViews(b0: seq<Region>, h0: Host, b: seq<Region>, h: Host, address: nat, count: nat, perms: nat)
    requires address < WORD && count < WORD && Protecting(b0, h0, b, h, address, count, perms)
    ensures forall a :: Mapped(b0, a) <==> Mapped(b, a)
  {
    hide Stored, View, InRange, Mapped;
    forall a: nat ensures Mapped(b0, a) <==> Mapped(b, a) {
      ViewOut(b0, h0, a);
      ViewOut(b, h, a);
    }
  }

  lemma ProtectingMapped(b0: seq<Region>, h0: Host, b: seq<Region>, h: Host, address: nat, size: nat, count: nat, perms: nat)
    requires address < WORD && count < size < WORD && AllMapped(b0, address, size) && Protecting(b0, h0, b, h, address, count, perms)
    ensures Mapped(b, Nth(address, count))
  {
    hide Protecting, Mapped;
    ProtectingViews(b0, h0, b, h, address, count, perms);
  }

  /** All bytes of a step have the permissions of the region it is in. */
  lemma ExecutableStep(b0: seq<Region>, h0: Host, b: seq<Region>, h: Host, i: nat, address: nat, count: nat, len: nat, perms: nat)
    requires address < WORD && 0 < len && count + len < WORD && Sorted(b) && Stored(b, h) && Stored(b0, h0)
    requires Hits(b, i, Nth(address, count)) && Nth(address, count) + len <= b[i].addr + b[i].size <= WORD
    requires Protecting(b0, h0, b, h, address, count, perms)
    ensures ExecutableIn(b0, h0, address, count + len) <==> ExecutableIn(b0, h0, address, count) || Executable(b[i].perms)
  {
    hide View, Sorted, Stored, Executable;
    forall k: nat | count <= k < count + len ensures ExecutableAt(b0, h0, Nth(address, k)) <==> Executable(b[i].perms) {
      var a := Nth(address, k);
      assert Hits(b, i, a) && !InRange(a, address, count);
      ViewIn(b, h, i, a);
      assert View(b, h, a) == View(b0, h0, a);
    }
    if Executable(b[i].perms) { assert ExecutableAt(b0, h0, Nth(address, count)); }
  }

  lemma ProtectingRepermed(b0: seq<Region>, h0: Host, b: seq<Region>, h: Host, b': seq<Region>, h': Host,
                           address: nat, count: nat, len: nat, perms: nat)
    requires address < WORD && count + len < WORD && Nth(address, count) + len <= WORD
    requires Protecting(b0, h0, b, h, address, count, perms)
    requires Repermed(b, h, b', h', Nth(address, count), Nth(address, count) + len, perms)
    ensures Protecting(b0, h0, b', h', address, count + len, perms)
  {
    hide Stored, View, InRange;
    forall a: nat ensures
        View(b', h', a) == if InRange(a, address, count + len) then WithPerms(View(b0, h0, a), perms) else View(b0, h0, a) {
      RangeStep(address, count, len, a);
      assert View(b, h, a) == if InRange(a, address, count) then WithPerms(View(b0, h0, a), perms) else View(b0, h0, a);
    }
  }

  lemma ProtectCut(b0: seq<Region>, h0: Host, b: seq<Region>, h: Host, b': seq<Region>, h': Host, mr: Region,
                   address: nat, size: nat, count: nat, len: nat, perms: nat)
    requires address < WORD && 0 < len && count + len == size < WORD && Sorted(b0) && Sorted(b) && mr in b && RegionOk(mr)
    requires Protecting(b0, h0, b, h, address, count, perms) && Frontier(b0, b, address, count)
    requires Nth(address, count) == mr.addr && Reaches(mr) && mr.addr + len < WORD
    requires Repermed(b, h, b', h', mr.addr, mr.addr + mr.size, perms)
    ensures Protected(b0, h0, b', h', address, size, perms)
  {
    hide Stored, View, InRange, Cut, Sorted, Frontier;
    forall a: nat ensures View(b', h', a) ==
        if InRange(a, address, size) || Cut(b0, a, address, size) then WithPerms(View(b0, h0, a), perms) else View(b0, h0, a) {
      AllCut(b0, b, mr, address, size, count, len, a);
      RangeStep(address, count, len, a);
      assert View(b, h, a) == if InRange(a, address, count) then WithPerms(View(b0, h0, a), perms) else View(b0, h0, a);
    }
  }

  lemma ProtectExact(b0: seq<Region>, h0: Host, b': seq<Region>, h': Host, address: nat, size: nat, perms: nat)
    requires address < WORD && size < WORD && Protecting(b0, h0, b', h', address, size, perms)
    requires forall a :: !Cut(b0, a, address, size)
    ensures Protected(b0, h0, b', h', address, size, perms)
  {
    hide Stored, View, InRange, Cut;
  }

  /** One round of the loop of uc_mem_protect takes the range one step further. */
  lemma ProtectingStep(b0: seq<Region>, h0: Host, b: seq<Region>, h: Host, b': seq<Region>, h': Host, mr: Region,
                       address: nat, size: nat, count: nat, len: nat, perms: nat)
    requires address < WORD && count < size < WORD && Sorted(b0) && Sorted(b) && Sorted(b') && mr in b && RegionOk(mr)
    requires Holds(mr, Nth(address, count)) && len == ChunkLength(size - count, mr, Nth(address, count))
    requires Protecting(b0, h0, b, h, address, count, perms) && Frontier(b0, b, address, count)
    requires Covered(mr, Nth(address, count), len) ==>
               Pieces(b, b', 0, 0) && Repermed(b, h, b', h', mr.addr, mr.addr + mr.size, perms)
    requires !Covered(mr, Nth(address, count), len) ==>
               !Reaches(mr) && Pieces(b, b', mr.addr, mr.addr + mr.size) &&
               Repermed(b, h, b', h', Nth(address, count), Nth(address, count) + len, perms)
    ensures count + len < size ==> Protecting(b0, h0, b', h', address, count + len, perms) && Frontier(b0, b', address, count + len)
    ensures count + len == size ==> Protected(b0, h0, b', h', address, size, perms)
  {
    hide Stored, View, InRange, Cut, Sorted, Frontier, Protecting, Repermed, Pieces, Protected;
    var addr := Nth(address, count);
    if addr == mr.addr && Reaches(mr) && addr + len < WORD {
      ProtectCut(b0, h0, b, h, b', h', mr, address, size, count, len, perms);
    } else {
      ProtectingRepermed(b0, h0, b, h, b', h', address, count, len, perms);
      if count + len < size {
        FrontierStep(b0, b, b', mr, address, count, len);
      } else {
        ProtectingViews(b0, h0, b, h, address, count, perms);
        FinishExact(b0, h0, b, b', h', mr, address, size, count, len);
        ProtectExact(b0, h0, b', h', address, size, perms);
      }
    }
  }

  /** Exactly the first `count` bytes of the range are gone. */
  ghost predicate Underway(b0: seq<Region>, h0: Host, b: seq<Region>, h: Host, address: nat, count: nat)
    requires address < WORD && count < WORD
  {
    && Stored(b0, h0) && Stored(b, h)
    && forall a: nat :: View(b, h, a) == if InRange(a, address, count) then None else View(b0, h0, a)
  }

  /** Regions up to the top are original ones. Past the first step, the range comes to the
      start of every region it enters and did not begin inside a region up to the top. */
  ghost predicate Frontier(b0: seq<Region>, b: seq<Region>, address: nat, count: nat)
    requires address < WORD && count < WORD
  {
    && (forall i :: 0 <= i < |b| && Reaches(b[i]) ==> HasRegion(b0, b[i].addr, b[i].size))
    && (count > 0 ==> forall i :: Hits(b, i, Nth(address, count)) ==> b[i].addr == Nth(address, count))
    && (count > 0 ==> forall i :: 0 <= i < |b| && Reaches(b[i]) ==> address <= b[i].addr)
  }

  /** The region reaches the top of memory, and the range holds its start but not its end. */
  ghost predicate CutShort(r: Region, address: nat, size: nat)
    requires address < WORD && size < WORD
  {
    Reaches(r) && InRange(r.addr, address, size) && !InRange(WORD - 1, address, size)
  }

  /** The address lies in a region that is cut short. */
  ghost predicate Cut(b0: seq<Region>, a: nat, address: nat, size: nat)
    requires address < WORD && size < WORD
  {
    exists i :: Hits(b0, i, a) && CutShort(b0[i], address, size)
  }

  /** What a successful uc_mem_unmap does: the range is gone, and with it a region that
      reaches the top of memory and is only partly inside. Nothing else changes. */
  ghost predicate Unmapped(b0: seq<Region>, h0: Host, b: seq<Region>, h: Host, address: nat, size: nat)
    requires address < WORD && size < WORD
  {
    && Stored(b0, h0) && Stored(b, h)
    && forall a: nat :: View(b, h, a) == if InRange(a, address, size) || Cut(b0, a, address, size) then None else View(b0, h0, a)
  }

  lemma NothingMapped(b: seq<Region>, address: nat)
    requires address < WORD
    ensures AllMapped(b, address, 0)
  {}

  lemma WholeMapped(b: seq<Region>, address: nat, size: nat)
    requires Sorted(b) && address < WORD && size < WORD
    ensures HasRegion(b, address, size) ==> AllMapped(b, address, size)
  {
    if HasRegion(b, address, size) {
      var i :| 0 <= i < |b| && b[i].addr == address && b[i].size == size;
      assert RegionOk(b[i]);
      forall k | 0 <= k < size ensures Mapped(b, Nth(address, k)) { assert Hits(b, i, Nth(address, k)); }
    }
  }

  lemma WholeChunk(b: seq<Region>, mr: Region, address: nat, size: nat, len: nat)
    requires Sorted(b) && HasRegion(b, address, size) && mr in b && RegionOk(mr) && Holds(mr, address) && 0 < size < WORD
    requires address < WORD && len == ChunkLength(size, mr, address)
    ensures mr.addr == address && mr.size == size == len && Covered(mr, address, len)
  {
    var i :| 0 <= i < |b| && b[i].addr == address && b[i].size == size;
    var j :| 0 <= j < |b| && b[j] == mr;
    assert Hits(b, i, address) && Hits(b, j, address);
    HitUnique(b, i, j, address);
  }

  lemma UnderwayStart(b: seq<Region>, h: Host, address: nat)
    requires Stored(b, h) && address < WORD
    ensures Underway(b, h, b, h, address, 0) && Frontier(b, b, address, 0)
  {
    hide Stored, View;
  }

  lemma StillMapped(b0: seq<Region>, h0: Host, b: seq<Region>, h: Host, address: nat, size: nat, count: nat)
    requires address < WORD && count < size < WORD && AllMapped(b0, address, size) && Underway(b0, h0, b, h, address, count)
    ensures Mapped(b, Nth(address, count))
  {
    hide Stored, View, Mapped;
    var a := Nth(address, count);
    ViewOut(b0, h0, a);
    ViewOut(b, h, a);
  }

  lemma ChunkAligned(r: Region, addr: nat, len: nat, size: nat, count: nat, m: nat)
    requires m > 0 && WORD % m == 0 && r.addr % m == 0 && r.size % m == 0 && addr % m == 0 && size % m == 0 && count % m == 0
    requires count < size && addr + len <= r.addr + r.size <= WORD && (len == size - count || addr + len == r.addr + r.size)
    ensures len % m == 0 && (count + len) % m == 0 && Wrap(addr + len) % m == 0
  {
    ModSum(size, count, m);
    ModSum(r.addr, r.size, m);
    ModSum(r.addr + r.size, addr, m);
    ModSum(count, len, m);
    ModSum(addr, len, m);
    ModSum(addr + len, WORD, m);
  }

  /** A region inside the range whose start the range has come to fits into the rest of it. */
  lemma ChunkWhole(r: Region, address: nat, size: nat, count: nat)
    requires address < WORD && count < size < WORD && RegionOk(r) && r.addr == Nth(address, count)
    requires forall a: nat :: Holds(r, a) ==> InRange(a, address, size)
    ensures r.size <= size - count
  {
    var a := r.addr + (size - count);
    assert Holds(r, a) ==> InRange(a, address, size);
  }

  lemma NthStep(address: nat, count: nat, len: nat)
    requires address < WORD && count + len < WORD
    ensures Wrap(Nth(address, count) + len) == Nth(address, count + len) && Nth(address, 0) == address
  {}

  lemma RangeStep(address: nat, count: nat, len: nat, a: nat)
    requires address < WORD && count + len < WORD && Nth(address, count) + len <= WORD
    ensures InRange(a, address, count + len) <==>
            InRange(a, address, count) || Nth(address, count) <= a < Nth(address, count) + len
  {}

  /** After a step that ends where the region ends, the next region starts there. */
  lemma FrontierStep(b0: seq<Region>, b: seq<Region>, b': seq<Region>, mr: Region, address: nat, count: nat, len: nat)
    requires address < WORD && 0 < len && count + len < WORD && Sorted(b) && Sorted(b') && mr in b && RegionOk(mr)
    requires Frontier(b0, b, address, count) && Holds(mr, Nth(address, count)) && Nth(address, count) + len == mr.addr + mr.size
    requires if Reaches(mr) then Pieces(b, b', 0, 0) else Pieces(b, b', mr.addr, mr.addr + mr.size) || Pieces(b, b', 0, 0)
    requires Reaches(mr) ==> Nth(address, count) == mr.addr
    ensures Frontier(b0, b', address, count + len)
  {
    var next := Nth(address, count + len);
    var m :| 0 <= m < |b| && b[m] == mr;
    forall i | 0 <= i < |b'| && Reaches(b'[i]) ensures HasRegion(b0, b'[i].addr, b'[i].size) && address <= b'[i].addr {
      assert RegionOk(b'[i]) && HasRegion(b, b'[i].addr, b'[i].size);
      var j :| 0 <= j < |b| && b[j].addr == b'[i].addr && b[j].size == b'[i].size;
      assert Reaches(b[j]);
      HitsAgree(b, m, j, address);
    }
    forall i | Hits(b', i, next) ensures b'[i].addr == next {
      assert RegionOk(b'[i]);
      if next != 0 && HasRegion(b, b'[i].addr, b'[i].size) {
        var j :| 0 <= j < |b| && b[j].addr == b'[i].addr && b[j].size == b'[i].size;
        RegionsApart(b, j, m);
      }
    }
  }

  /** A step that takes exactly its part of the range cuts no region short. */
  lemma NothingCut(b0: seq<Region>, b: seq<Region>, mr: Region, address: nat, size: nat, count: nat, len: nat, r: Region)
    requires address < WORD && 0 < len && count + len == size < WORD && Sorted(b0) && Sorted(b) && mr in b && RegionOk(mr)
    requires Frontier(b0, b, address, count) && Holds(mr, Nth(address, count)) && Nth(address, count) + len <= mr.addr + mr.size
    requires Reaches(mr) ==> Nth(address, count) + len == mr.addr + mr.size
    requires forall a :: Mapped(b0, a) && !InRange(a, address, count) ==> Mapped(b, a)
    requires r in b0
    ensures !CutShort(r, address, size)
  {
    var top, addr := WORD - 1, Nth(address, count);
    RangeStep(address, count, len, top);
    RangeStep(address, count, len, r.addr);
    if Reaches(r) && !InRange(top, address, size) {
      var j := TopRegion(b0, b, address, count, r);
      var m :| 0 <= m < |b| && b[m] == mr;
      FrontierAt(b0, b, address, count, j);
      HitsAgree(b, m, j, r.addr);
    }
  }

  /** The region at the top is still the original one while its last byte is mapped. */
  lemma TopRegion(b0: seq<Region>, b: seq<Region>, address: nat, count: nat, r: Region) returns (j: nat)
    requires address < WORD && count < WORD && Sorted(b0) && Sorted(b) && Frontier(b0, b, address, count)
    requires r in b0 && Reaches(r) && !InRange(WORD - 1, address, count)
    requires forall a :: Mapped(b0, a) && !InRange(a, address, count) ==> Mapped(b, a)
    ensures j < |b| && b[j].addr == r.addr && b[j].size == r.size
  {
    var top := WORD - 1;
    var i :| 0 <= i < |b0| && b0[i] == r;
    assert RegionOk(r) && Hits(b0, i, top) && Mapped(b0, top);
    j :| Hits(b, j, top);
    assert RegionOk(b[j]) && Reaches(b[j]) && HasRegion(b0, b[j].addr, b[j].size);
    var k :| 0 <= k < |b0| && b0[k].addr == b[j].addr && b0[k].size == b[j].size;
    assert Hits(b0, k, top);
    HitUnique(b0, i, k, top);
  }

  lemma FrontierAt(b0: seq<Region>, b: seq<Region>, address: nat, count: nat, j: nat)
    requires address < WORD && count < WORD && Frontier(b0, b, address, count) && j < |b|
    ensures Hits(b, j, Nth(address, count)) ==> count == 0 || b[j].addr == Nth(address, count)
  {}

  lemma RegionsApart(b: seq<Region>, i: nat, j: nat)
    requires Sorted(b) && i < |b| && j < |b|
    ensures i < j ==> b[i].addr + b[i].size <= b[j].addr
    ensures j < i ==> b[j].addr + b[j].size <= b[i].addr
  {}

  lemma HitsAgree(b: seq<Region>, i: int, j: int, a: nat)
    requires Sorted(b)
    ensures Hits(b, i, a) && Hits(b, j, a) ==> i == j
  {}

  /** A step that takes all of a region at the top cuts exactly that region short. */
  lemma AllCut(b0: seq<Region>, b: seq<Region>, mr: Region, address: nat, size: nat, count: nat, len: nat, a: nat)
    requires address < WORD && 0 < len && count + len == size < WORD && Sorted(b0) && Sorted(b) && mr in b && RegionOk(mr)
    requires Frontier(b0, b, address, count) && Nth(address, count) == mr.addr && Reaches(mr) && mr.addr + len < WORD
    ensures Cut(b0, a, address, size) <==> Holds(mr, a)
  {
    var top := WORD - 1;
    var m :| 0 <= m < |b| && b[m] == mr;
    assert HasRegion(b0, b[m].addr, b[m].size);
    var k :| 0 <= k < |b0| && b0[k].addr == mr.addr && b0[k].size == mr.size;
    RangeStep(address, count, len, top);
    RangeStep(address, count, len, mr.addr);
    assert CutShort(b0[k], address, size);
    if Holds(mr, a) { assert Hits(b0, k, a); }
    if Cut(b0, a, address, size) {
      var i :| Hits(b0, i, a) && CutShort(b0[i], address, size);
      assert Hits(b0, i, top) && Hits(b0, k, top);
      HitUnique(b0, i, k, top);
    }
  }

  lemma UnderwayErased(b0: seq<Region>, h0: Host, b: seq<Region>, h: Host, b': seq<Region>, h': Host, address: nat, count: nat, len: nat)
    requires address < WORD && count + len < WORD && Nth(address, count) + len <= WORD
    requires Underway(b0, h0, b, h, address, count) && Erased(b, h, b', h', Nth(address, count), Nth(address, count) + len)
    ensures Underway(b0, h0, b', h', address, count + len)
  {
    hide Stored, View, InRange;
    forall a: nat ensures View(b', h', a) == if InRange(a, address, count + len) then None else View(b0, h0, a) {
      RangeStep(address, count, len, a);
      assert View(b, h, a) == if InRange(a, address, count) then None else View(b0, h0, a);
    }
  }

  lemma UnderwayMapped(b0: seq<Region>, h0: Host, b: seq<Region>, h: Host, address: nat, count: nat)
    requires address < WORD && count < WORD && Underway(b0, h0, b, h, address, count)
    ensures forall a :: Mapped(b0, a) && !InRange(a, address, count) ==> Mapped(b, a)
    ensures forall a :: Mapped(b, a) ==> !InRange(a, address, count)
  {
    hide Stored, View, InRange, Mapped;
    forall a: nat
      ensures Mapped(b0, a) && !InRange(a, address, count) ==> Mapped(b, a)
      ensures Mapped(b, a) ==> !InRange(a, address, count) {
      ViewOut(b0, h0, a);
      ViewOut(b, h, a);
    }
  }

  lemma FinishExact(b0: seq<Region>, h0: Host, b: seq<Region>, b': seq<Region>, h': Host, mr: Region,
                    address: nat, size: nat, count: nat, len: nat)
    requires address < WORD && 0 < len && count + len == size < WORD && Sorted(b0) && Sorted(b) && mr in b && RegionOk(mr)
    requires Frontier(b0, b, address, count) && Holds(mr, Nth(address, count)) && Nth(address, count) + len <= mr.addr + mr.size
    requires Reaches(mr) ==> Nth(address, count) + len == mr.addr + mr.size
    requires forall a :: Mapped(b0, a) && !InRange(a, address, count) ==> Mapped(b, a)
    ensures forall a :: !Cut(b0, a, address, size)
    ensures Underway(b0, h0, b', h', address, size) ==> Unmapped(b0, h0, b', h', address, size)
  {
    hide Stored, View, InRange, CutShort, Sorted, Frontier, Mapped;
    forall a ensures !Cut(b0, a, address, size) {
      forall i | Hits(b0, i, a) ensures !CutShort(b0[i], address, size) {
        NothingCut(b0, b, mr, address, size, count, len, b0[i]);
      }
    }
  }

  lemma FinishCut(b0: seq<Region>, h0: Host, b: seq<Region>, h: Host, b': seq<Region>, h': Host, mr: Region,
                  address: nat, size: nat, count: nat, len: nat)
    requires address < WORD && 0 < len && count + len == size < WORD && Sorted(b0) && Sorted(b) && mr in b && RegionOk(mr)
    requires Underway(b0, h0, b, h, address, count) && Frontier(b0, b, address, count)
    requires Nth(address, count) == mr.addr && Reaches(mr) && mr.addr + len < WORD
    requires Erased(b, h, b', h', mr.addr, mr.addr + mr.size)
    ensures Unmapped(b0, h0, b', h', address, size)
  {
    hide Stored, View, InRange, Cut, Sorted, Frontier;
    forall a: nat ensures View(b', h', a) ==
        if InRange(a, address, size) || Cut(b0, a, address, size) then None else View(b0, h0, a) {
      AllCut(b0, b, mr, address, size, count, len, a);
      RangeStep(address, count, len, a);
      assert View(b, h, a) == if InRange(a, address, count) then None else View(b0, h0, a);
    }
  }

  /** One round of the loop of uc_mem_unmap takes the range one step further. */
  lemma UnderwayStep(b0: seq<Region>, h0: Host, b: seq<Region>, h: Host, b': seq<Region>, h': Host, mr: Region,
                     address: nat, size: nat, count: nat, len: nat)
    requires address < WORD && count < size < WORD && Sorted(b0) && Sorted(b) && Sorted(b') && mr in b && RegionOk(mr)
    requires Holds(mr, Nth(address, count)) && len == ChunkLength(size - count, mr, Nth(address, count))
    requires Underway(b0, h0, b, h, address, count) && Frontier(b0, b, address, count)
    requires Covered(mr, Nth(address, count), len) ==>
               Pieces(b, b', 0, 0) && Erased(b, h, b', h', mr.addr, mr.addr + mr.size)
    requires !Covered(mr, Nth(address, count), len) ==> !Reaches(mr) && SplitDone(b, h, b', h', mr, Nth(address, count), len, true)
    ensures count + len < size ==> Underway(b0, h0, b', h', address, count + len) && Frontier(b0, b', address, count + len)
    ensures count + len == size ==> Unmapped(b0, h0, b', h', address, size)
  {
    hide Stored, View, InRange, Cut, Sorted, Frontier, Underway, Erased, Pieces, Unmapped;
    var addr := Nth(address, count);
    if addr == mr.addr && Reaches(mr) && addr + len < WORD {
      FinishCut(b0, h0, b, h, b', h', mr, address, size, count, len);
    } else {
      UnderwayErased(b0, h0, b, h, b', h', address, count, len);
      if count + len < size {
        FrontierStep(b0, b, b', mr, address, count, len);
      } else {
        UnderwayMapped(b0, h0, b, h, address, count);
        FinishExact(b0, h0, b, b', h', mr, address, size, count, len);
      }
    }
  }

  lemma OwnBlock(blocks: seq<Region>, host: Host, block: Region, mr: Region)
    requires Sorted(blocks) && Stored(blocks, host) && block in blocks && mr in blocks
    requires RegionOk(block) && RegionOk(mr) && !Reaches(mr) && block.prealloc
    requires block.addr <= mr.addr && Wrap(block.size + block.addr) >= End(mr)
    ensures block == mr && NotOwned(blocks, mr.buf)
  {
    var i :| 0 <= i < |blocks| && blocks[i] == block;
    var j :| 0 <= j < |blocks| && blocks[j] == mr;
    assert i < j ==> block.addr + block.size <= mr.addr;
    assert j < i ==> mr.addr + mr.size <= block.addr;
  }

  lemma SavedView(blocks: seq<Region>, host: Host, mr: Region, saved: seq<Byte>)
    requires Sorted(blocks) && Stored(blocks, host) && mr in blocks && Backed(mr, host)
    requires saved == host[mr.buf][mr.off..mr.off + mr.size]
    ensures forall a: nat :: Holds(mr, a) ==> View(blocks, host, a) == Some(Cell(saved[a - mr.addr], mr.perms))
  {
    hide View, Sorted, Stored;
    var i :| 0 <= i < |blocks| && blocks[i] == mr;
    forall a: nat | Holds(mr, a) ensures View(blocks, host, a) == Some(Cell(saved[a - mr.addr], mr.perms)) {
      assert Hits(blocks, i, a);
      ViewIn(blocks, host, i, a);
    }
  }

  lemma RegionHas(blocks: seq<Region>, mr: Region)
    requires mr in blocks
    ensures HasRegion(blocks, mr.addr, mr.size)
  {}

  lemma RegionMapped(blocks: seq<Region>, mr: Region, a: nat)
    requires mr in blocks && Holds(mr, a)
    ensures Mapped(blocks, a)
  {
    var i :| 0 <= i < |blocks| && blocks[i] == mr;
    assert Hits(blocks, i, a);
  }

  lemma SameRegion(blocks: seq<Region>, mr: Region, j: nat, a: nat)
    requires Sorted(blocks) && mr in blocks && Holds(mr, a) && Hits(blocks, j, a)
    ensures blocks[j] == mr
  {
    var i :| 0 <= i < |blocks| && blocks[i] == mr;
    HitUnique(blocks, i, j, a);
  }

  lemma ErasedFree(b0: seq<Region>, h0: Host, b1: seq<Region>, h1: Host, lo: nat, hi: nat)
    requires Erased(b0, h0, b1, h1, lo, hi)
    ensures Free(b1, lo, hi)
  {
    hide View, Stored, Mapped;
    forall a | lo <= a < hi ensures !Mapped(b1, a) { ViewOut(b1, h1, a); }
  }

  lemma SplitGone(b0: seq<Region>, h0: Host, b1: seq<Region>, h1: Host, mr: Region, addr: nat, len: nat)
    requires SplitDone(b0, h0, b1, h1, mr, addr, len, true) && len > 0
    ensures !Mapped(b1, addr) && Pieces(b0, b1, mr.addr, mr.addr + mr.size)
  {
    hide View, Stored, Mapped;
    ErasedFree(b0, h0, b1, h1, addr, addr + len);
  }

  lemma SplitAligned(begin: nat, total: nat, address: nat, size: nat, m: nat)
    requires m > 0 && begin % m == 0 && total % m == 0 && address % m == 0 && size % m == 0
    requires begin <= address && address + size <= begin + total
    ensures (address - begin) % m == 0 && (begin + total - (address + size)) % m == 0
  {
    ModSum(address, begin, m);
    ModSum(begin, total, m);
    ModSum(address, size, m);
    ModSum(begin + total, address + size, m);
  }

  lemma SplitCombine(b0: seq<Region>, h0: Host, b1: seq<Region>, h1: Host, b2: seq<Region>, h2: Host,
                     mr: Region, address: nat, size: nat, doDelete: bool, saved: seq<Byte>)
    requires |saved| == mr.size && mr.addr <= address && address + size <= mr.addr + mr.size
    requires forall a: nat :: Holds(mr, a) ==> Stored(b0, h0) && View(b0, h0, a) == Some(Cell(saved[a - mr.addr], mr.perms))
    requires Erased(b0, h0, b1, h1, mr.addr, mr.addr + mr.size) && Pieces(b0, b1, 0, 0)
    requires Sorted(b1) && Regrown(b1, b2, mr.addr, mr.addr + mr.size)
    requires Rebuilt(b1, h1, b2, h2, mr.addr, address - mr.addr, size, mr.perms, doDelete, saved)
    requires !doDelete ==> HasRegion(b2, address, size)
    ensures SplitDone(b0, h0, b2, h2, mr, address, size, doDelete)
  {
    PiecesTrans(b0, b1, b2, mr.addr, mr.addr + mr.size);
    hide View, Stored, Pieces, HasRegion, Regrown;
    forall a: nat ensures View(b2, h2, a) == if doDelete && address <= a < address + size then None else View(b0, h0, a) {
      assert View(b1, h1, a) == if Holds(mr, a) then None else View(b0, h0, a);
    }
  }

  lemma PiecesTrans(b0: seq<Region>, b1: seq<Region>, b2: seq<Region>, lo: nat, hi: nat)
    requires Pieces(b0, b1, lo, hi) || Pieces(b0, b1, 0, 0)
    requires Pieces(b1, b2, lo, hi)
    requires forall i :: 0 <= i < |b1| ==> RegionOk(b1[i])
    ensures Pieces(b0, b2, lo, hi)
  {
    forall i | 0 <= i < |b2| && HasRegion(b1, b2[i].addr, b2[i].size)
      ensures HasRegion(b0, b2[i].addr, b2[i].size) || (lo <= b2[i].addr && b2[i].addr + b2[i].size <= hi) {
      var j :| 0 <= j < |b1| && b1[j].addr == b2[i].addr && b1[j].size == b2[i].size;
      assert RegionOk(b1[j]);
    }
  }

  /** The first test of split_region, with the ends it compares in 64-bit arithmetic. */
  ghost predicate Covered(r: Region, address: nat, size: nat)
    requires RegionOk(r) && address < WORD && size < WORD
  {
    address <= r.addr && Wrap(address + size) >= End(r)
  }

  /** A region was split: it and its pieces aside nothing moved, and either exactly the part
      is gone or nothing shows and the part is a region of its own. */
  ghost predicate SplitDone(b0: seq<Region>, h0: Host, b1: seq<Region>, h1: Host, mr: Region, address: nat, size: nat, doDelete: bool) {
    && Pieces(b0, b1, mr.addr, mr.addr + mr.size)
    && if doDelete then Erased(b0, h0, b1, h1, address, address + size)
       else Erased(b0, h0, b1, h1, 0, 0) && HasRegion(b1, address, size)
  }

  ghost predicate Free(blocks: seq<Region>, lo: nat, hi: nat) {
    forall a :: lo <= a < hi ==> !Mapped(blocks, a)
  }

  lemma FreePart(blocks: seq<Region>, lo: nat, hi: nat, lo': nat, hi': nat)
    requires Free(blocks, lo, hi) && lo <= lo' && hi' <= hi
    ensures Free(blocks, lo', hi')
  {}

  /** All regions are still there, and the new ones lie between `lo` and `hi`. */
  ghost predicate Regrown(b0: seq<Region>, b1: seq<Region>, lo: nat, hi: nat) {
    Pieces(b0, b1, lo, hi) && forall addr, size :: HasRegion(b0, addr, size) ==> HasRegion(b1, addr, size)
  }

  lemma RegrownSame(b: seq<Region>, lo: nat, hi: nat)
    ensures Regrown(b, b, lo, hi)
  {}

  lemma GrownRegrown(b0: seq<Region>, h0: Host, b1: seq<Region>, h1: Host, addr: nat, size: nat)
    requires Grown(b0, h0, b1, h1, addr, size)
    ensures Regrown(b0, b1, addr, addr + size) && HasRegion(b1, addr, size)
  {}

  lemma RegrownKeeps(b0: seq<Region>, b1: seq<Region>, lo: nat, hi: nat, addr: nat, size: nat)
    requires Regrown(b0, b1, lo, hi) && HasRegion(b0, addr, size)
    ensures HasRegion(b1, addr, size)
  {}

  lemma RegrownTrans(b0: seq<Region>, b1: seq<Region>, lo: nat, hi: nat, b2: seq<Region>, lo': nat, hi': nat, from: nat, to: nat)
    requires Regrown(b0, b1, lo, hi) && Regrown(b1, b2, lo', hi') && from <= lo && from <= lo' && hi <= to && hi' <= to
    ensures Regrown(b0, b2, from, to)
  {
    forall i | 0 <= i < |b2| && !HasRegion(b0, b2[i].addr, b2[i].size)
      ensures from <= b2[i].addr && b2[i].addr + b2[i].size <= to {
      if HasRegion(b1, b2[i].addr, b2[i].size) {
        var j :| 0 <= j < |b1| && b1[j].addr == b2[i].addr && b1[j].size == b2[i].size;
      }
    }
  }

  lemma UserKeptTrans(b0: seq<Region>, h0: Host, b1: seq<Region>, h1: Host, b2: seq<Region>, h2: Host)
    requires UserKept(b0, h0, b1, h1) && UserKept(b1, h1, b2, h2)
    ensures UserKept(b0, h0, b2, h2)
  {}

  lemma ProvidesKept(b0: seq<Region>, h0: Host, b1: seq<Region>, h1: Host, backup: Backup, saved: seq<Byte>)
    requires UserKept(b0, h0, b1, h1) && Provides(b0, h0, backup, saved)
    ensures Provides(b1, h1, backup, saved)
  {}

  lemma ModSum(a: nat, b: nat, m: nat)
    requires m > 0 && a % m == 0 && b % m == 0
    ensures (a + b) % m == 0 && (b <= a ==> (a - b) % m == 0)
  {
    DivModEq(a, m);
    DivModEq(b, m);
    Distribute(a / m, b / m, m);
    Distribute(a / m, -(b / m), m);
    DivModUnique(a + b, a / m + b / m, 0, m);
    if b <= a { DivModUnique(a - b, a / m - b / m, 0, m); }
  }

  lemma ShownNothing(b: seq<Region>, h: Host, lo: nat, perms: nat)
    requires Stored(b, h)
    ensures Shown(b, h, b, h, lo, [], perms)
  {}

  lemma StillFree(b0: seq<Region>, h0: Host, b1: seq<Region>, h1: Host, at: nat, bytes: seq<Byte>, perms: nat, lo: nat, hi: nat)
    requires Shown(b0, h0, b1, h1, at, bytes, perms) && Free(b0, lo, hi) && at + |bytes| <= lo
    ensures Free(b1, lo, hi)
  {
    hide Stored, View, Mapped;
    forall a | lo <= a < hi ensures !Mapped(b1, a) {
      ViewOut(b0, h0, a);
      ViewOut(b1, h1, a);
    }
  }

  /** Everything between `begin` and the end of the saved bytes shows those bytes again,
      except the deleted middle. */
  ghost predicate Rebuilt(b0: seq<Region>, h0: Host, b1: seq<Region>, h1: Host, begin: nat, lSize: nat, mSize: nat,
                          perms: nat, doDelete: bool, saved: seq<Byte>)
  {
    && Stored(b0, h0) && Stored(b1, h1)
    && forall a: nat ::
         View(b1, h1, a) ==
         if begin <= a < begin + |saved| && !(doDelete && begin + lSize <= a < begin + lSize + mSize)
         then Some(Cell(saved[a - begin], perms)) else View(b0, h0, a)
  }

  lemma RebuiltView(b0: seq<Region>, h0: Host, b1: seq<Region>, h1: Host, b2: seq<Region>, h2: Host, b3: seq<Region>, h3: Host,
                    begin: nat, lSize: nat, mSize: nat, rSize: nat, perms: nat, doDelete: bool, saved: seq<Byte>)
    requires lSize + mSize + rSize == |saved|
    requires Shown(b0, h0, b1, h1, begin, saved[0..0 + lSize], perms)
    requires Shown(b1, h1, b2, h2, begin + lSize, if !doDelete then saved[lSize..lSize + mSize] else [], perms)
    requires Shown(b2, h2, b3, h3, begin + lSize + mSize, saved[lSize + mSize..lSize + mSize + rSize], perms)
    ensures Rebuilt(b0, h0, b3, h3, begin, lSize, mSize, perms, doDelete, saved)
  {
    hide Stored, View;
    forall a: nat ensures
        View(b3, h3, a) ==
        if begin <= a < begin + |saved| && !(doDelete && begin + lSize <= a < begin + lSize + mSize)
        then Some(Cell(saved[a - begin], perms)) else View(b0, h0, a) {
      assert View(b1, h1, a) == View(b1, h1, a) && View(b2, h2, a) == View(b2, h2, a);
    }
  }

  /** The backup yields the saved bytes, and the engine does not own the memory of a pointer. */
  ghost predicate Provides(blocks: seq<Region>, host: Host, backup: Backup, saved: seq<Byte>) {
    match backup
    case Copied(bytes) => bytes == saved
    case Pointer(buf, off) =>
      buf in host && off + |saved| <= |host[buf]| && host[buf][off..off + |saved|] == saved && NotOwned(blocks, buf)
  }

  /** Exactly the addresses from `lo` on show new bytes. */
  ghost predicate Shown(b0: seq<Region>, h0: Host, b1: seq<Region>, h1: Host, lo: nat, bytes: seq<Byte>, perms: nat) {
    && Stored(b0, h0) && Stored(b1, h1)
    && forall a: nat :: View(b1, h1, a) == if lo <= a < lo + |bytes| then Some(Cell(bytes[a - lo], perms)) else View(b0, h0, a)
  }

  lemma ProvidesFacts(blocks: seq<Region>, host: Host, backup: Backup, saved: seq<Byte>)
    requires Provides(blocks, host, backup, saved)
    ensures backup.Copied? ==> backup.bytes == saved
    ensures backup.Pointer? ==> && backup.buf in host && backup.off + |saved| <= |host[backup.buf]|
                                && host[backup.buf][backup.off..backup.off + |saved|] == saved
                                && NotOwned(blocks, backup.buf)
  {}

  lemma UserKeptSame(b: seq<Region>, h: Host)
    ensures UserKept(b, h, b, h)
  {}

  /** A region of this extent as mapping makes it: in memory of the engine, which is read-only
      unless it may be written, or at this place of the caller's, which never is. */
  ghost predicate IsPiece(r: Region, addr: nat, size: nat, perms: nat, source: Option<(nat, nat)>) {
    && r.addr == addr && r.size == size && r.perms == perms && Source(r) == source
    && r.readonly == (source.None? && !Writable(perms))
  }

  ghost predicate PieceOf(b: seq<Region>, addr: nat, size: nat, perms: nat, source: Option<(nat, nat)>) {
    exists r :: r in b && IsPiece(r, addr, size, perms, source)
  }

  function Source(r: Region): Option<(nat, nat)> {
    if r.prealloc then Some((r.buf, r.off)) else None
  }

  /** Where the part of the backup from `at` on is mapped from. */
  function SourceAt(backup: Backup, at: nat): Option<(nat, nat)> {
    match backup
    case Copied(_) => None
    case Pointer(buf, off) => Some((buf, off + at))
  }

  /** Every region is still there, with its permissions, its memory and whether it is read-only. */
  ghost predicate Keeps(b0: seq<Region>, b1: seq<Region>) {
    forall r :: r in b0 ==> r in b1
  }

  /** The same for the regions outside [lo, hi). */
  ghost predicate KeepsOutside(b0: seq<Region>, b1: seq<Region>, lo: nat, hi: nat) {
    forall r :: r in b0 && (r.addr + r.size <= lo || hi <= r.addr) ==> r in b1
  }

  lemma KeepsSame(b: seq<Region>)
    ensures Keeps(b, b)
  {}

  lemma KeepsTrans(b0: seq<Region>, b1: seq<Region>, b2: seq<Region>)
    requires Keeps(b0, b1) && Keeps(b1, b2)
    ensures Keeps(b0, b2)
  {}

  lemma KeepsPiece(b0: seq<Region>, b1: seq<Region>, addr: nat, size: nat, perms: nat, source: Option<(nat, nat)>)
    requires Keeps(b0, b1) && PieceOf(b0, addr, size, perms, source)
    ensures PieceOf(b1, addr, size, perms, source)
  {}

  lemma KeepsOutsideMore(b0: seq<Region>, b1: seq<Region>, b2: seq<Region>, lo: nat, hi: nat)
    requires KeepsOutside(b0, b1, lo, hi) && Keeps(b1, b2)
    ensures KeepsOutside(b0, b2, lo, hi)
  {}

  lemma InsertKeeps(b: seq<Region>, pos: nat, r: Region)
    requires Fits(b, pos, r)
    ensures Keeps(b, Inserted(b, pos, r)) && r in Inserted(b, pos, r)
    ensures r.readonly == (!r.prealloc && !Writable(r.perms)) ==>
              PieceOf(Inserted(b, pos, r), r.addr, r.size, r.perms, Source(r))
  {
    var after := Inserted(b, pos, r);
    assert after[pos] == r;
    forall x | x in b ensures x in after {
      var i :| 0 <= i < |b| && b[i] == x;
      assert after[if i < pos then i else i + 1] == x;
    }
    if r.readonly == (!r.prealloc && !Writable(r.perms)) { assert IsPiece(r, r.addr, r.size, r.perms, Source(r)); }
  }

  lemma DropKeeps(b: seq<Region>, i: nat)
    requires Sorted(b) && i < |b|
    ensures KeepsOutside(b, Dropped(b, i), b[i].addr, b[i].addr + b[i].size)
  {
    var after := Dropped(b, i);
    forall r | r in b && (r.addr + r.size <= b[i].addr || b[i].addr + b[i].size <= r.addr) ensures r in after {
      var j :| 0 <= j < |b| && b[j] == r;
      assert RegionOk(b[j]) && RegionOk(b[i]);
      assert after[if j < i then j else j - 1] == r;
    }
  }

  /** The range has a byte of the region. */
  ghost predicate Meets(r: Region, address: nat, size: nat)
    requires address < WORD && size < WORD
  {
    exists a: nat :: Holds(r, a) && InRange(a, address, size)
  }

  /** What writing does to the regions: those it meets that may not be written are read-only now. */
  ghost predicate Marked(b0: seq<Region>, b1: seq<Region>, address: nat, size: nat)
    requires address < WORD && size < WORD
  {
    && |b0| == |b1|
    && forall i :: 0 <= i < |b0| ==>
         b1[i] == if Meets(b0[i], address, size) && !Writable(b0[i].perms) then b0[i].(readonly := true) else b0[i]
  }

  lemma MarkedStart(b: seq<Region>, address: nat)
    requires address < WORD
    ensures Marked(b, b, address, 0)
  {}

  /** One more chunk of a write, inside region `i`. */
  lemma MarkedStep(b0: seq<Region>, b: seq<Region>, b1: seq<Region>, i: nat, address: nat, count: nat, len: nat)
    requires address < WORD && 0 < len && count + len < WORD && Sorted(b0) && i < |b0| && Marked(b0, b, address, count)
    requires b0[i].addr <= Nth(address, count) && Nth(address, count) + len <= b0[i].addr + b0[i].size
    requires b1 == if Writable(b[i].perms) then b else Flagged(b, i, b[i].perms, true)
    ensures Marked(b0, b1, address, count + len)
  {
    var a := Nth(address, count);
    assert Holds(b0[i], a) && InRange(a, address, count + len) by { RangeStep(address, count, len, a); }
    forall j | 0 <= j < |b0| && j != i
      ensures Meets(b0[j], address, count + len) <==> Meets(b0[j], address, count) {
      forall x: nat | Holds(b0[j], x) ensures InRange(x, address, count + len) <==> InRange(x, address, count) {
        RangeStep(address, count, len, x);
      }
    }
  }

  /** A fresh region is as read-only as writing would make it. */
  lemma MarkedFresh(b: seq<Region>, b1: seq<Region>, addr: nat, size: nat, perms: nat, host: Host)
    requires Sorted(b) && addr < WORD && size < WORD && addr + size <= WORD && Marked(b, b1, addr, size)
    requires HasFresh(b, addr, size, perms, host)
    ensures b1 == b
  {
    var i :| 0 <= i < |b| && Fresh(b[i], addr, size, perms, host);
    forall j, a: nat | 0 <= j < |b| && j != i && Holds(b[j], a) ensures !InRange(a, addr, size) {}
  }

  /** Some region has exactly this extent and the permissions, and is read-only unless it may be written. */
  ghost predicate Sealed(b: seq<Region>, addr: nat, size: nat, perms: nat) {
    exists r :: r in b && r.addr == addr && r.size == size && r.perms == perms && r.readonly == !Writable(perms)
  }

  /** The regions of the range are read-only exactly if the permissions say so. */
  ghost predicate AllSealed(b: seq<Region>, address: nat, size: nat, perms: nat)
    requires address < WORD && size < WORD
  {
    forall i, a: nat :: Hits(b, i, a) && InRange(a, address, size) ==> b[i].perms == perms && b[i].readonly == !Writable(perms)
  }

  /** In addition they do not leave the range. */
  ghost predicate Settled(b: seq<Region>, address: nat, count: nat, perms: nat)
    requires address < WORD && count < WORD
  {
    && AllSealed(b, address, count, perms)
    && forall i, a: nat, a': nat :: Hits(b, i, a) && InRange(a, address, count) && Holds(b[i], a') ==> InRange(a', address, count)
  }

  lemma SettledStart(b: seq<Region>, address: nat, perms: nat)
    requires address < WORD
    ensures Settled(b, address, 0, perms)
  {}

  /** A region the range came over before is not the one it is at, and stays. */
  lemma SettledBefore(b: seq<Region>, b1: seq<Region>, mr: Region, address: nat, count: nat, perms: nat, i: int, a: nat)
    requires address < WORD && count < WORD && Sorted(b) && Sorted(b1) && mr in b && Holds(mr, Nth(address, count))
    requires Settled(b, address, count, perms) && KeepsOutside(b, b1, mr.addr, mr.addr + mr.size)
    requires Mapped(b, a) && Hits(b1, i, a) && InRange(a, address, count)
    ensures b1[i].perms == perms && b1[i].readonly == !Writable(perms)
    ensures forall a': nat :: Holds(b1[i], a') ==> InRange(a', address, count)
  {
    var j :| Hits(b, j, a);
    var m :| 0 <= m < |b| && b[m] == mr;
    assert !InRange(Nth(address, count), address, count);
    assert m != j;
    assert b[j] in b1;
    var k :| 0 <= k < |b1| && b1[k] == b[j];
    assert Hits(b1, k, a);
    HitUnique(b1, i, k, a);
  }

  /** One more region is sealed. */
  lemma SettledStep(b: seq<Region>, b1: seq<Region>, mr: Region, address: nat, size: nat, count: nat, len: nat, perms: nat)
    requires address < WORD && count < size < WORD && Sorted(b) && Sorted(b1) && mr in b && RegionOk(mr)
    requires Holds(mr, Nth(address, count)) && len == ChunkLength(size - count, mr, Nth(address, count))
    requires Settled(b, address, count, perms) && KeepsOutside(b, b1, mr.addr, mr.addr + mr.size)
    requires forall a: nat :: Mapped(b1, a) ==> Mapped(b, a)
    requires if Covered(mr, Nth(address, count), len) then Sealed(b1, mr.addr, mr.size, perms)
             else Sealed(b1, Nth(address, count), len, perms)
    ensures AllSealed(b1, address, count + len, perms)
    ensures count + len < size ==> Settled(b1, address, count + len, perms)
  {
    var addr := Nth(address, count);
    var r :| r in b1 && r.perms == perms && r.readonly == !Writable(perms) &&
             if Covered(mr, addr, len) then r.addr == mr.addr && r.size == mr.size else r.addr == addr && r.size == len;
    forall i, a: nat | Hits(b1, i, a) && InRange(a, address, count + len)
      ensures b1[i].perms == perms && b1[i].readonly == !Writable(perms)
      ensures count + len < size ==> forall a': nat :: Holds(b1[i], a') ==> InRange(a', address, count + len) {
      SealedAt(b, b1, mr, r, address, size, count, len, perms, i, a);
    }
  }

  lemma SealedAt(b: seq<Region>, b1: seq<Region>, mr: Region, r: Region, address: nat, size: nat, count: nat, len: nat, perms: nat, i: int, a: nat)
    requires address < WORD && count < size < WORD && Sorted(b) && Sorted(b1) && mr in b && RegionOk(mr)
    requires Holds(mr, Nth(address, count)) && len == ChunkLength(size - count, mr, Nth(address, count))
    requires Settled(b, address, count, perms) && KeepsOutside(b, b1, mr.addr, mr.addr + mr.size)
    requires r in b1 && r.perms == perms && r.readonly == !Writable(perms)
    requires if Covered(mr, Nth(address, count), len) then r.addr == mr.addr && r.size == mr.size
             else r.addr == Nth(address, count) && r.size == len
    requires Mapped(b, a) && Hits(b1, i, a) && InRange(a, address, count + len)
    ensures b1[i].perms == perms && b1[i].readonly == !Writable(perms)
    ensures count + len < size ==> forall a': nat :: Holds(b1[i], a') ==> InRange(a', address, count + len)
  {
    hide Sorted, Settled, KeepsOutside, Mapped;
    var addr := Nth(address, count);
    RangeStep(address, count, len, a);
    if InRange(a, address, count) {
      SettledBefore(b, b1, mr, address, count, perms, i, a);
      forall a': nat ensures InRange(a', address, count) ==> InRange(a', address, count + len) { RangeStep(address, count, len, a'); }
    } else {
      SameRegion(b1, r, i, a);
      if count + len < size {
        forall a': nat | Holds(r, a') ensures InRange(a', address, count + len) { RangeStep(address, count, len, a'); }
      }
    }
  }

  lemma FlagSeals(b0: seq<Region>, b: seq<Region>, i: nat, lo: nat, hi: nat, perms: nat)
    requires Sorted(b) && i < |b| && KeepsOutside(b0, b, lo, hi) && lo <= b[i].addr && b[i].addr + b[i].size <= hi
    ensures KeepsOutside(b0, Flagged(b, i, perms, !Writable(perms)), lo, hi)
    ensures Sealed(Flagged(b, i, perms, !Writable(perms)), b[i].addr, b[i].size, perms)
  {
    var after := Flagged(b, i, perms, !Writable(perms));
    assert RegionOk(b[i]) && after[i] in after;
    forall r | r in b0 && (r.addr + r.size <= lo || hi <= r.addr) ensures r in after {
      var j :| 0 <= j < |b| && b[j] == r;
      assert RegionOk(b[j]);
      assert after[j] == r;
    }
  }

  lemma KeepsOutsideSame(b: seq<Region>, lo: nat, hi: nat)
    ensures KeepsOutside(b, b, lo, hi)
  {}

  lemma KeepsAwaySame(b: seq<Region>, address: nat, size: nat)
    requires address < WORD && size < WORD
    ensures KeepsAway(b, b, address, size)
  {}

  lemma NoneSealed(b: seq<Region>, address: nat, perms: nat)
    requires address < WORD
    ensures AllSealed(b, address, 0, perms)
  {}

  lemma InsideRange(address: nat, size: nat, count: nat)
    requires address < WORD && count < size < WORD
    ensures InRange(Nth(address, count), address, size)
  {}

  /** Regions the range does not meet are untouched. */
  ghost predicate KeepsAway(b0: seq<Region>, b1: seq<Region>, address: nat, size: nat)
    requires address < WORD && size < WORD
  {
    forall r :: r in b0 && !Meets(r, address, size) ==> r in b1
  }

  lemma KeepsAwayStep(b0: seq<Region>, b: seq<Region>, b1: seq<Region>, mr: Region, address: nat, size: nat, a: nat)
    requires address < WORD && size < WORD && Sorted(b) && mr in b && Holds(mr, a) && InRange(a, address, size)
    requires KeepsAway(b0, b, address, size) && KeepsOutside(b, b1, mr.addr, mr.addr + mr.size)
    ensures KeepsAway(b0, b1, address, size)
  {
    forall r | r in b0 && !Meets(r, address, size) ensures r in b1 {
      var i :| 0 <= i < |b| && b[i] == r;
      var j :| 0 <= j < |b| && b[j] == mr;
      assert Meets(mr, address, size);
      assert i != j;
    }
  }

  /** The region of a piece is the one found there. */
  lemma PieceFound(b: seq<Region>, addr: nat, size: nat, perms: nat, source: Option<(nat, nat)>, j: int)
    requires Sorted(b) && PieceOf(b, addr, size, perms, source)
    ensures Mapped(b, addr)
    ensures Hits(b, j, addr) ==> IsPiece(b[j], addr, size, perms, source)
  {
    var r :| r in b && IsPiece(r, addr, size, perms, source);
    var i :| 0 <= i < |b| && b[i] == r;
    assert RegionOk(b[i]) && Hits(b, i, addr);
    if Hits(b, j, addr) { HitUnique(b, i, j, addr); }
  }

  lemma KeptHost(b0: seq<Region>, h0: Host, b1: seq<Region>, h1: Host, addr: nat, size: nat, buf: nat)
    requires Grown(b0, h0, b1, h1, addr, size) && buf in h0 && NotOwned(b0, buf)
    ensures buf in h1 && h1[buf] == h0[buf] && NotOwned(b1, buf)
  {}

  /** The pieces a split leaves: all in the caller's memory where they were, or all in memory of the engine. */
  ghost predicate PiecesFrom(b: seq<Region>, mr: Region, address: nat, size: nat, doDelete: bool, shared: bool)
    requires mr.addr <= address && address + size <= mr.addr + mr.size
  {
    && (mr.addr < address ==> PieceOf(b, mr.addr, address - mr.addr, mr.perms, PartSource(mr, 0, shared)))
    && (!doDelete ==> PieceOf(b, address, size, mr.perms, PartSource(mr, address - mr.addr, shared)))
    && (address + size < mr.addr + mr.size ==>
          PieceOf(b, address + size, mr.addr + mr.size - (address + size), mr.perms, PartSource(mr, address - mr.addr + size, shared)))
  }

  lemma PiecesBuilt(b: seq<Region>, mr: Region, address: nat, size: nat, doDelete: bool, backup: Backup, shared: bool)
    requires mr.addr <= address && address + size <= mr.addr + mr.size
    requires if shared then backup == Pointer(mr.buf, mr.off) else backup.Copied?
    requires mr.addr < address ==> PieceOf(b, mr.addr, address - mr.addr, mr.perms, SourceAt(backup, 0))
    requires !doDelete ==> PieceOf(b, address, size, mr.perms, SourceAt(backup, address - mr.addr))
    requires address + size < mr.addr + mr.size ==>
               PieceOf(b, address + size, mr.addr + mr.size - (address + size), mr.perms, SourceAt(backup, address - mr.addr + size))
    ensures PiecesFrom(b, mr, address, size, doDelete, shared)
  {}

  function PartSource(mr: Region, at: nat, shared: bool): Option<(nat, nat)> {
    if shared then Some((mr.buf, mr.off + at)) else None
  }

  lemma GrownFacts(b0: seq<Region>, h0: Host, b1: seq<Region>, h1: Host, addr: nat, size: nat)
    requires Grown(b0, h0, b1, h1, addr, size)
    ensures UserKept(b0, h0, b1, h1)
  {}

  lemma PieceMapped(blocks: seq<Region>, addr: nat, size: nat, perms: nat, host: Host)
    requires HasFresh(blocks, addr, size, perms, host) && addr + size <= WORD && size < WORD && addr < WORD
    ensures AllMapped(blocks, addr, size)
  {
    var i :| 0 <= i < |blocks| && Fresh(blocks[i], addr, size, perms, host);
    forall k | 0 <= k < size ensures Mapped(blocks, Nth(addr, k)) {
      assert Hits(blocks, i, Nth(addr, k));
    }
  }

  lemma PointerShown(b0: seq<Region>, host: Host, b1: seq<Region>, begin: nat, size: nat, perms: nat,
                     buf: nat, off: nat, at: nat, saved: seq<Byte>)
    requires Stored(b0, host) && Stored(b1, host) && buf in host && off + |saved| <= |host[buf]| && at + size <= |saved|
    requires host[buf][off..off + |saved|] == saved
    requires forall a: nat ::
               View(b1, host, a) ==
               if begin <= a < begin + size then Some(Cell(host[buf][off + at + (a - begin)], perms)) else View(b0, host, a)
    ensures Shown(b0, host, b1, host, begin, saved[at..at + size], perms)
  {
    hide Stored, View;
    var piece := saved[at..at + size];
    forall a: nat | begin <= a < begin + size ensures View(b1, host, a) == Some(Cell(piece[a - begin], perms)) {
      var k := at + (a - begin);
      assert saved[k] == host[buf][off..off + |saved|][k];
    }
  }

  /** Writing all of a fresh region changes its memory only. */
  lemma WrittenPiece(blocks: seq<Region>, h: Host, h': Host, i: nat, piece: seq<Byte>)
    requires Sorted(blocks) && Stored(blocks, h) && i < |blocks| && !blocks[i].prealloc
    requires |piece| == blocks[i].size < WORD && 0 < |piece| && blocks[i].addr < WORD
    requires Written(blocks, h, h', blocks[i].addr, piece)
    ensures h.Keys == h'.Keys && Backed(blocks[i], h')
    ensures forall b :: b in h && b != blocks[i].buf ==> h'[b] == h[b]
    ensures forall k: nat :: k < |piece| ==> h'[blocks[i].buf][blocks[i].off + k] == piece[k]
  {
    hide Sorted, Last;
    var r := blocks[i];
    assert Backed(r, h) && Nth(r.addr, 0) == r.addr;
    assert RegionOk(r) by { RegionFacts(blocks, h, i); }
    forall b | b in h && b != r.buf ensures h'[b] == h[b] {
      forall o | 0 <= o < |h[b]| ensures h'[b][o] == h[b][o] {
        hide Lands;
        TouchedSplit(blocks, i, r.addr, 0, 0, |piece|, b, o);
      }
    }
    forall k: nat | k < |piece| ensures h'[r.buf][r.off + k] == piece[k] {
      PieceLast(blocks, i, k, |piece|);
    }
  }

  lemma PieceLast(blocks: seq<Region>, i: nat, k: nat, size: nat)
    requires Sorted(blocks) && i < |blocks| && k < size == blocks[i].size < WORD
    ensures blocks[i].addr < WORD && Last(blocks, blocks[i].addr, k, size, blocks[i].buf, blocks[i].off + k)
  {
    hide Lands;
    var r := blocks[i];
    assert RegionOk(r);
    ChunkLands(blocks, i, r.addr, 0, size, r.buf, r.off + k);
  }

  lemma SameExtents(b0: seq<Region>, b1: seq<Region>)
    requires SameRegions(b0, b1)
    ensures forall addr, size :: HasRegion(b0, addr, size) <==> HasRegion(b1, addr, size)
    ensures forall b :: NotOwned(b0, b) <==> NotOwned(b1, b)
    ensures forall i :: 0 <= i < |b1| ==> b1[i].addr == b0[i].addr && b1[i].size == b0[i].size
  {
    forall addr, size ensures HasRegion(b0, addr, size) <==> HasRegion(b1, addr, size) {
      assert forall i :: 0 <= i < |b0| ==> b0[i].addr == b1[i].addr && b0[i].size == b1[i].size;
    }
    assert forall i :: 0 <= i < |b0| ==> b0[i].prealloc == b1[i].prealloc && b0[i].buf == b1[i].buf;
  }

  lemma SameGrown(b0: seq<Region>, h0: Host, b: seq<Region>, h: Host, b1: seq<Region>, h1: Host, addr: nat, size: nat)
    requires Grown(b0, h0, b, h, addr, size) && SameRegions(b, b1) && h.Keys == h1.Keys
    requires forall x :: x in h0 && x in h ==> h1[x] == h[x]
    ensures Grown(b0, h0, b1, h1, addr, size)
  {
    SameExtents(b, b1);
    hide HasRegion, NotOwned, SameRegions;
  }

  /** Views agree when regions differ only in being read-only. */
  lemma SameView(b0: seq<Region>, h0: Host, b1: seq<Region>, h1: Host, i: nat, a: nat)
    requires Sorted(b0) && Stored(b0, h0) && Sorted(b1) && Stored(b1, h1) && SameRegions(b0, b1)
    requires Hits(b0, i, a)
    ensures Hits(b1, i, a) && Backed(b1[i], h1) && Backed(b0[i], h0)
    ensures View(b0, h0, a) == Some(CellOf(b0[i], h0, a))
    ensures View(b1, h1, a) == Some(Cell(h1[b0[i].buf][b0[i].off + (a - b0[i].addr)], b0[i].perms))
  {
    hide View, Sorted;
    ViewIn(b0, h0, i, a);
    assert Hits(b1, i, a);
    ViewIn(b1, h1, i, a);
  }

  lemma PieceView(b: seq<Region>, h: Host, b1: seq<Region>, h1: Host, i: nat, piece: seq<Byte>, a: nat)
    requires Sorted(b) && Stored(b, h) && Sorted(b1) && Stored(b1, h1) && SameRegions(b, b1) && i < |b| && !b[i].prealloc
    requires |piece| == b[i].size && h.Keys == h1.Keys && Backed(b[i], h1)
    requires forall x :: x in h && x != b[i].buf ==> h1[x] == h[x]
    requires forall k: nat :: k < |piece| ==> h1[b[i].buf][b[i].off + k] == piece[k]
    ensures View(b1, h1, a) == if Holds(b[i], a) then Some(Cell(piece[a - b[i].addr], b[i].perms)) else View(b, h, a)
  {
    hide View, Sorted;
    if Mapped(b, a) {
      var j :| Hits(b, j, a);
      SameView(b, h, b1, h1, j, a);
      if Holds(b[i], a) {
        HitUnique(b, i, j, a);
      } else {
        assert b[j].buf != b[i].buf;
      }
    } else {
      SameRegionsHits(b, b1, a);
      ViewOut(b, h, a);
      ViewOut(b1, h1, a);
      assert !Hits(b, i, a);
    }
  }

  lemma PieceKept(b0: seq<Region>, h0: Host, b: seq<Region>, h: Host, b1: seq<Region>, h1: Host,
                  begin: nat, piece: seq<Byte>, perms: nat, ok: bool)
    requires Stored(b0, h0) && Sorted(b) && Stored(b, h) && Sorted(b1) && Stored(b1, h1)
    requires 0 < |piece| < WORD && begin < WORD
    requires Grown(b0, h0, b, h, begin, |piece|) && HasFresh(b, begin, |piece|, perms, h0)
    requires forall a: nat :: View(b, h, a) == if begin <= a < begin + |piece| then Some(Cell(0, perms)) else View(b0, h0, a)
    requires SameRegions(b, b1) && (!ok ==> b1 == b && h1 == h)
    requires ok ==> Written(b, h, h1, begin, piece)
    ensures UserKept(b0, h0, b1, h1)
    ensures ok ==> Grown(b0, h0, b1, h1, begin, |piece|) && Shown(b0, h0, b1, h1, begin, piece, perms)
  {
    hide View, Sorted, Stored, Written, Grown, UserKept, SameRegions;
    GrownFacts(b0, h0, b, h, begin, |piece|);
    if ok {
      var i :| 0 <= i < |b| && Fresh(b[i], begin, |piece|, perms, h0);
      WrittenPiece(b, h, h1, i, piece);
      SameGrown(b0, h0, b, h, b1, h1, begin, |piece|);
      GrownFacts(b0, h0, b1, h1, begin, |piece|);
      forall a: nat ensures View(b1, h1, a) ==
          if begin <= a < begin + |piece| then Some(Cell(piece[a - begin], perms)) else View(b0, h0, a) {
        PieceView(b, h, b1, h1, i, piece, a);
      }
    }
  }

  /** Exactly the addresses from `lo` to `hi` are gone. */
  ghost predicate Erased(b0: seq<Region>, h0: Host, b1: seq<Region>, h1: Host, lo: nat, hi: nat) {
    && Stored(b0, h0) && Stored(b1, h1)
    && forall a: nat :: View(b1, h1, a) == if lo <= a < hi then None else View(b0, h0, a)
  }

  lemma HitMapped(blocks: seq<Region>, i: nat, a: nat)
    requires Hits(blocks, i, a)
    ensures Mapped(blocks, a)
  {}

  lemma DropErased(blocks: seq<Region>, host: Host, host': Host, i: nat)
    requires Sorted(blocks) && Stored(blocks, host) && i < |blocks| && Sorted(Dropped(blocks, i))
    requires host' == if blocks[i].prealloc then host else host - {blocks[i].buf}
    ensures Stored(Dropped(blocks, i), host')
    ensures Erased(blocks, host, Dropped(blocks, i), host', blocks[i].addr, blocks[i].addr + blocks[i].size)
    ensures UserKept(blocks, host, Dropped(blocks, i), host')
    ensures Pieces(blocks, Dropped(blocks, i), 0, 0)
  {
    hide View, Mapped;
    var after := Dropped(blocks, i);
    DropStored(blocks, host, i);
    forall a: nat ensures View(after, host', a) == if Holds(blocks[i], a) then None else View(blocks, host, a) {
      hide Stored, Sorted;
      DropView(blocks, host, i, a);
      DropHost(blocks, host, host', i);
      HostView(after, host, host', a);
    }
    DropExtents(blocks, i);
    DropHost(blocks, host, host', i);
    HostView(after, host, host', 0);
  }

  lemma DropStored(blocks: seq<Region>, host: Host, i: nat)
    requires Stored(blocks, host) && i < |blocks|
    ensures Stored(Dropped(blocks, i), host)
  {}

  /** Dropping a region may free its memory only: no other region uses it. */
  lemma DropHost(blocks: seq<Region>, host: Host, host': Host, i: nat)
    requires Stored(blocks, host) && i < |blocks|
    requires host' == if blocks[i].prealloc then host else host - {blocks[i].buf}
    ensures forall j :: 0 <= j < |blocks| && j != i ==> blocks[j].buf in host' && host'[blocks[j].buf] == host[blocks[j].buf]
    ensures forall j :: 0 <= j < |Dropped(blocks, i)| ==>
      Dropped(blocks, i)[j].buf in host' && host'[Dropped(blocks, i)[j].buf] == host[Dropped(blocks, i)[j].buf]
  {}

  lemma DropExtents(blocks: seq<Region>, i: nat)
    requires i < |blocks|
    ensures Pieces(blocks, Dropped(blocks, i), 0, 0)
    ensures forall b :: NotOwned(blocks, b) ==> NotOwned(Dropped(blocks, i), b) && (!blocks[i].prealloc ==> b != blocks[i].buf)
  {
    var after := Dropped(blocks, i);
    forall j | 0 <= j < |after| ensures HasRegion(blocks, after[j].addr, after[j].size) {
      assert after[j] == blocks[if j < i then j else j + 1];
    }
  }

  lemma WrittenStart(blocks: seq<Region>, host: Host, address: nat)
    requires address < WORD
    ensures Written(blocks, host, host, address, []) && SameRegions(blocks, blocks)
  {}

  lemma SameRegionsAt(before: seq<Region>, after: seq<Region>, i: nat)
    requires SameRegions(before, after) && i < |after| && Sorted(after)
    ensures i < |before| && Sorted(before)
    ensures before[i].buf == after[i].buf && before[i].off == after[i].off
    ensures before[i].addr == after[i].addr && before[i].size == after[i].size
  {
    assert forall j :: 0 <= j < |before| ==> before[j].addr == after[j].addr && before[j].size == after[j].size;
  }

  lemma SameRegionsTrans(a: seq<Region>, b: seq<Region>, c: seq<Region>, i: nat)
    requires SameRegions(a, b) && SameRegions(b, c) && i < |a|
    ensures SameRegions(a, c) && c[i].buf == b[i].buf && c[i].off == b[i].off && c[i].addr == b[i].addr
  {}

  /** Writing the next chunk extends what has been written. */
  lemma WriteStep(blocks: seq<Region>, h0: Host, h: Host, h': Host, address: nat, bytes: seq<Byte>, count: nat, len: nat, i: nat)
    requires Sorted(blocks) && i < |blocks| && address < WORD && 0 < len && count + len <= |bytes| < WORD
    requires blocks[i].addr <= Nth(address, count) && Nth(address, count) + len <= blocks[i].addr + blocks[i].size
    requires blocks[i].buf in h && blocks[i].off + blocks[i].size <= |h[blocks[i].buf]|
    requires Written(blocks, h0, h, address, bytes[..count])
    requires h' == h[blocks[i].buf := Spliced(h[blocks[i].buf], blocks[i].off + (Nth(address, count) - blocks[i].addr),
                                              bytes[count..count + len])]
    ensures Written(blocks, h0, h', address, bytes[..count + len])
  {
    hide Sorted, Lands, Touched, Last, Nth;
    var start := blocks[i].off + (Nth(address, count) - blocks[i].addr);
    var chunk := bytes[count..count + len];
    var done, more := bytes[..count], bytes[..count + len];
    forall b, o | b in h0 && 0 <= o < |h0[b]| && !Touched(blocks, address, 0, |more|, b, o)
      ensures h'[b][o] == h0[b][o] {
      TouchedSplit(blocks, i, address, 0, count, len, b, o);
    }
    forall k: nat, b, o | k < |more| && b in h0 && 0 <= o < |h0[b]| && Last(blocks, address, k, |more|, b, o)
      ensures h'[b][o] == more[k] {
      if k < count {
        LastSplit(blocks, i, address, k, count, len, b, o);
      } else {
        ChunkLast(blocks, i, address, k, count, len, b, o);
      }
    }
  }

  /** A byte is touched up to the end of a chunk when it was before or is in the chunk. */
  lemma TouchedSplit(blocks: seq<Region>, i: nat, address: nat, from: nat, count: nat, len: nat, b: nat, o: nat)
    requires Sorted(blocks) && i < |blocks| && address < WORD && from <= count && 0 < len && count + len < WORD
    requires blocks[i].addr <= Nth(address, count) && Nth(address, count) + len <= blocks[i].addr + blocks[i].size
    ensures var start := blocks[i].off + (Nth(address, count) - blocks[i].addr);
            Touched(blocks, address, from, count + len, b, o) <==>
            Touched(blocks, address, from, count, b, o) || (b == blocks[i].buf && start <= o < start + len)
  {
    hide Sorted, Lands, Nth;
    var start := blocks[i].off + (Nth(address, count) - blocks[i].addr);
    ChunkLands(blocks, i, address, count, len, b, o);
    if b == blocks[i].buf && start <= o < start + len {
      assert Lands(blocks, Nth(address, count + (o - start)), b, o);
    }
  }

  lemma LastSplit(blocks: seq<Region>, i: nat, address: nat, k: nat, count: nat, len: nat, b: nat, o: nat)
    requires Sorted(blocks) && i < |blocks| && address < WORD && k < count && 0 < len && count + len < WORD
    requires blocks[i].addr <= Nth(address, count) && Nth(address, count) + len <= blocks[i].addr + blocks[i].size
    ensures var start := blocks[i].off + (Nth(address, count) - blocks[i].addr);
            Last(blocks, address, k, count + len, b, o) <==>
            Last(blocks, address, k, count, b, o) && !(b == blocks[i].buf && start <= o < start + len)
  {
    hide Sorted, Lands, Nth, Touched;
    TouchedSplit(blocks, i, address, k + 1, count, len, b, o);
  }

  lemma ChunkLast(blocks: seq<Region>, i: nat, address: nat, k: nat, count: nat, len: nat, b: nat, o: nat)
    requires Sorted(blocks) && i < |blocks| && address < WORD && count <= k < count + len < WORD
    requires blocks[i].addr <= Nth(address, count) && Nth(address, count) + len <= blocks[i].addr + blocks[i].size
    requires Last(blocks, address, k, count + len, b, o)
    ensures b == blocks[i].buf && o == blocks[i].off + (Nth(address, count) - blocks[i].addr) + (k - count)
  {
    hide Sorted, Lands, Nth, Touched;
    ChunkLands(blocks, i, address, count, len, b, o);
  }

  lemma HostSizes(blocks: seq<Region>, host: Host, host': Host)
    requires Stored(blocks, host) && SameSizes(host, host')
    ensures Stored(blocks, host')
  {}

  lemma SameRegionsHits(before: seq<Region>, after: seq<Region>, a: nat)
    requires SameRegions(before, after)
    ensures Mapped(before, a) <==> Mapped(after, a)
    ensures forall b, o :: Lands(before, a, b, o) <==> Lands(after, a, b, o)
  {
    assert forall i :: Hits(before, i, a) <==> Hits(after, i, a);
    forall b, o ensures Lands(before, a, b, o) <==> Lands(after, a, b, o) {
      if Lands(before, a, b, o) {
        var i :| Hits(before, i, a) && before[i].buf == b && before[i].off + (a - before[i].addr) == o;
        assert Hits(after, i, a);
      }
      if Lands(after, a, b, o) {
        var i :| Hits(after, i, a) && after[i].buf == b && after[i].off + (a - after[i].addr) == o;
        assert Hits(before, i, a);
      }
    }
  }

  /** The bytes of a chunk inside region `i` land on consecutive bytes of its memory. */
  lemma ChunkLands(blocks: seq<Region>, i: nat, address: nat, count: nat, len: nat, b: nat, o: nat)
    requires Sorted(blocks) && i < |blocks| && address < WORD && count + len < WORD
    requires 0 < len && blocks[i].addr <= Nth(address, count) && Nth(address, count) + len <= blocks[i].addr + blocks[i].size
    ensures var start := blocks[i].off + (Nth(address, count) - blocks[i].addr);
            forall k: nat :: count <= k < count + len ==>
              (Lands(blocks, Nth(address, k), b, o) <==> b == blocks[i].buf && o == start + (k - count))
  {
    var start := blocks[i].off + (Nth(address, count) - blocks[i].addr);
    forall k: nat | count <= k < count + len
      ensures Lands(blocks, Nth(address, k), b, o) <==> b == blocks[i].buf && o == start + (k - count) {
      var a := Nth(address, k);
      assert Hits(blocks, i, a);
      if Lands(blocks, a, b, o) {
        var j :| Hits(blocks, j, a) && blocks[j].buf == b && blocks[j].off + (a - blocks[j].addr) == o;
        HitUnique(blocks, i, j, a);
      }
    }
  }

  lemma RegionFacts(blocks: seq<Region>, host: Host, i: nat)
    requires Sorted(blocks) && Stored(blocks, host) && i < |blocks|
    ensures RegionOk(blocks[i]) && Backed(blocks[i], host)
  {}

  lemma HostKept(blocks: seq<Region>, host: Host, host': Host)
    requires Stored(blocks, host) && forall b :: b in host ==> b in host' && host'[b] == host[b]
    ensures Stored(blocks, host')
    ensures forall i :: 0 <= i < |blocks| ==> blocks[i].buf in host && host'[blocks[i].buf] == host[blocks[i].buf]
  {}

  lemma RegionShown(blocks: seq<Region>, host: Host, host': Host, pos: nat, r: Region)
    requires Fits(blocks, pos, r) && (r.prealloc || r.buf !in host)
    requires forall b :: b in host ==> b in host' && host'[b] == host[b]
    ensures Grown(blocks, host, Inserted(blocks, pos, r), host', r.addr, r.size)
    ensures Fresh(r, r.addr, r.size, r.perms, host) ==> HasFresh(Inserted(blocks, pos, r), r.addr, r.size, r.perms, host)
  {
    var after := Inserted(blocks, pos, r);
    assert after[pos] == r;
    forall addr, size | HasRegion(blocks, addr, size) ensures HasRegion(after, addr, size) {
      var i :| 0 <= i < |blocks| && blocks[i].addr == addr && blocks[i].size == size;
      assert after[if i < pos then i else i + 1] == blocks[i];
    }
    forall i | 0 <= i < |after| && i != pos ensures HasRegion(blocks, after[i].addr, after[i].size) {
      assert after[i] == blocks[if i < pos then i else i - 1];
    }
  }

  /** Memory the engine allocated for one region is used by no other. */
  ghost predicate Private(blocks: seq<Region>, r: Region) {
    forall j :: 0 <= j < |blocks| && (!r.prealloc || !blocks[j].prealloc) ==> blocks[j].buf != r.buf
  }

  lemma BackedOne(r: Region, host: Host)
    ensures Stored([r], host) <==> Backed(r, host)
  {
    if Stored([r], host) { assert Backed([r][0], host); }
  }

  lemma GapFits(blocks: seq<Region>, i: nat, r: Region)
    requires Sorted(blocks) && RegionOk(r) && i <= |blocks|
    requires forall j :: 0 <= j < i ==> blocks[j].addr + blocks[j].size <= r.addr
    requires forall j :: i <= j < |blocks| ==> r.addr < blocks[j].addr + blocks[j].size
    requires forall a :: Holds(r, a) ==> !Mapped(blocks, a)
    ensures Fits(blocks, i, r)
  {
    forall j | i <= j < |blocks| ensures r.addr + r.size <= blocks[j].addr {
      var first := if blocks[j].addr <= r.addr then r.addr else blocks[j].addr;
      if first < r.addr + r.size {
        assert Hits(blocks, j, first) && Holds(r, first);
      }
    }
  }

  ghost predicate SomeCutShort(b0: seq<Region>, address: nat, size: nat)
    requires address < WORD && size < WORD
  {
    exists i :: 0 <= i < |b0| && CutShort(b0[i], address, size)
  }

  /** A successful unmap removes exactly the range, if and only if the range does not start a
      region that reaches the top of memory without finishing it. */
  lemma UnmapExactIff(b0: seq<Region>, h0: Host, b: seq<Region>, h: Host, address: nat, size: nat)
    requires address < WORD && size < WORD && Sorted(b0) && Unmapped(b0, h0, b, h, address, size)
    ensures (forall a: nat :: View(b, h, a) == if InRange(a, address, size) then None else View(b0, h0, a)) <==>
            !SomeCutShort(b0, address, size)
  {
    hide View, Stored, InRange;
    if SomeCutShort(b0, address, size) {
      var i :| 0 <= i < |b0| && CutShort(b0[i], address, size);
      CutTop(b0, h0, i, address, size);
      assert View(b, h, WORD - 1) == None;
    }
  }

  /** The last byte of memory is lost when its region is cut short. */
  lemma CutTop(b0: seq<Region>, h0: Host, i: nat, address: nat, size: nat)
    requires address < WORD && size < WORD && Sorted(b0) && Stored(b0, h0) && i < |b0| && CutShort(b0[i], address, size)
    ensures Backed(b0[i], h0) && Holds(b0[i], WORD - 1) && View(b0, h0, WORD - 1) == Some(CellOf(b0[i], h0, WORD - 1))
    ensures Cut(b0, WORD - 1, address, size)
  {
    RegionFacts(b0, h0, i);
    assert Hits(b0, i, WORD - 1);
    ViewIn(b0, h0, i, WORD - 1);
  }

  /** A successful protect changes exactly the range, if and only if no region that reaches
      the top of memory with other permissions is started and not finished. */
  lemma ProtectExactIff(b0: seq<Region>, h0: Host, b: seq<Region>, h: Host, address: nat, size: nat, perms: nat)
    requires address < WORD && size < WORD && Sorted(b0) && Protected(b0, h0, b, h, address, size, perms)
    ensures (forall a: nat :: View(b, h, a) == if InRange(a, address, size) then WithPerms(View(b0, h0, a), perms) else View(b0, h0, a)) <==>
            !exists i :: 0 <= i < |b0| && CutShort(b0[i], address, size) && b0[i].perms != perms
  {
    hide View, Stored, InRange, Sorted;
    if i :| 0 <= i < |b0| && CutShort(b0[i], address, size) && b0[i].perms != perms {
      CutTop(b0, h0, i, address, size);
      assert View(b, h, WORD - 1) == WithPerms(View(b0, h0, WORD - 1), perms);
    } else {
      forall a: nat | Cut(b0, a, address, size) ensures WithPerms(View(b0, h0, a), perms) == View(b0, h0, a) {
        var i :| Hits(b0, i, a) && CutShort(b0[i], address, size);
        ViewIn(b0, h0, i, a);
      }
    }
  }

  lemma NoneOwned(host: Host, buf: nat)
    ensures NotOwned([], buf) && Sorted([]) && Stored([], host)
  {}

  lemma OnlyMapped(h0: Host, b: seq<Region>, h: Host, addr: nat, size: nat)
    requires Grown([], h0, b, h, addr, size)
    ensures forall a: nat :: Mapped(b, a) ==> addr <= a < addr + size
  {
    forall i | 0 <= i < |b| ensures addr <= b[i].addr && b[i].addr + b[i].size <= addr + size {
      assert !HasRegion([], b[i].addr, b[i].size);
    }
  }

  lemma NoneMapped()
    ensures forall a :: !Mapped([], a)
  {}

  lemma LastByte(b: seq<Region>, h: Host)
    requires Stored(b, h)
    ensures AllMapped(b, WORD - 1, 1) <==> View(b, h, WORD - 1).Some?
  {
    hide View, Stored;
    ViewOut(b, h, WORD - 1);
    assert Nth(WORD - 1, 0) == WORD - 1;
  }

  /** The address lies inside a region that reaches the top of memory, behind its first byte. */
  ghost predicate Entered(b: seq<Region>, address: nat) {
    exists i :: 0 <= i < |b| && Reaches(b[i]) && b[i].addr < address
  }

  /** The region such an address lies in is not covered by a range that starts there. */
  lemma EnteredChunk(b: seq<Region>, j: nat, address: nat, len: nat)
    requires Sorted(b) && address < WORD && len < WORD && Entered(b, address) && Hits(b, j, address)
    ensures RegionOk(b[j]) && Reaches(b[j]) && !Covered(b[j], address, len)
  {
    var i :| 0 <= i < |b| && Reaches(b[i]) && b[i].addr < address;
    assert Hits(b, i, address);
    HitUnique(b, i, j, address);
  }

  /** No two regions share host memory. */
  ghost predicate Unshared(blocks: seq<Region>) {
    forall i, j :: 0 <= i < |blocks| && 0 <= j < |blocks| && i != j && blocks[i].buf == blocks[j].buf ==>
      blocks[i].off + blocks[i].size <= blocks[j].off || blocks[j].off + blocks[j].size <= blocks[i].off
  }

  lemma LandsOnce(blocks: seq<Region>, a: nat, a': nat, b: nat, o: nat)
    requires Unshared(blocks) && Lands(blocks, a, b, o) && Lands(blocks, a', b, o)
    ensures a == a'
  {
    var i :| Hits(blocks, i, a) && blocks[i].buf == b && blocks[i].off + (a - blocks[i].addr) == o;
    var j :| Hits(blocks, j, a') && blocks[j].buf == b && blocks[j].off + (a' - blocks[j].addr) == o;
  }

  /** A write shows exactly: the range holds the bytes written, everything else is as before. */
  lemma WriteShows(blocks: seq<Region>, h0: Host, h: Host, address: nat, bytes: seq<Byte>, a: nat)
    requires Sorted(blocks) && Stored(blocks, h0) && Stored(blocks, h) && Unshared(blocks)
    requires address < WORD && |bytes| < WORD && AllMapped(blocks, address, |bytes|) && Written(blocks, h0, h, address, bytes)
    ensures forall k: nat :: k < |bytes| && a == Nth(address, k) ==>
              View(blocks, h, a).Some? && View(blocks, h0, a).Some? &&
              View(blocks, h, a).value == Cell(bytes[k], View(blocks, h0, a).value.perms)
    ensures !InRange(a, address, |bytes|) ==> View(blocks, h, a) == View(blocks, h0, a)
  {
    hide Sorted, Stored, View, Unshared, Touched;
    if Mapped(blocks, a) {
      var i :| Hits(blocks, i, a);
      RegionFacts(blocks, h0, i);
      ViewIn(blocks, h0, i, a);
      ViewIn(blocks, h, i, a);
      var b, o := blocks[i].buf, blocks[i].off + (a - blocks[i].addr);
      assert Lands(blocks, a, b, o);
      forall k: nat | k < |bytes| && a == Nth(address, k) ensures h[b][o] == bytes[k] {
        OnlyToucher(blocks, address, k, |bytes|, b, o);
        assert Last(blocks, address, k, |bytes|, b, o);
      }
      if !InRange(a, address, |bytes|) { NotTouched(blocks, address, |bytes|, a, b, o); }
    } else {
      ViewOut(blocks, h0, a);
      ViewOut(blocks, h, a);
    }
  }

  lemma OnlyToucher(blocks: seq<Region>, address: nat, k: nat, size: nat, b: nat, o: nat)
    requires address < WORD && k < size < WORD && Unshared(blocks) && Lands(blocks, Nth(address, k), b, o)
    ensures !Touched(blocks, address, k + 1, size, b, o)
  {
    hide Unshared, Lands;
    forall k' | k < k' < size ensures !Lands(blocks, Nth(address, k'), b, o) {
      if Lands(blocks, Nth(address, k'), b, o) { LandsOnce(blocks, Nth(address, k), Nth(address, k'), b, o); }
    }
  }

  lemma NotTouched(blocks: seq<Region>, address: nat, size: nat, a: nat, b: nat, o: nat)
    requires address < WORD && size < WORD && Unshared(blocks) && Lands(blocks, a, b, o) && !InRange(a, address, size)
    ensures !Touched(blocks, address, 0, size, b, o)
  {
    hide Unshared, Lands;
    forall k | 0 <= k < size ensures !Lands(blocks, Nth(address, k), b, o) {
      if Lands(blocks, Nth(address, k), b, o) { LandsOnce(blocks, a, Nth(address, k), b, o); }
    }
  }
}
