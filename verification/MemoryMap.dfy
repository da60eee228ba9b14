/** The guest memory map of uc.c: mapping, lookup and access. Only RAM regions occur, and
    no target redirects addresses. */
module MemoryMap {
  import opened Addresses
  import opened Arithmetic
  import opened MemoryEffects
  import opened MemorySharing
  import opened MemoryView
  import opened Words
  import opened Wrappers

  class Memory {
    const pageSize: nat
    const hostPage: nat
    /** Whether the n-th allocation of guest memory fails. */
    const allocFails: nat -> bool
    var blocks: seq<Region>
    var capacity: nat
    var cacheIndex: nat
    var host: Host
    var attempts: nat
    var quitRequest: bool

    ghost predicate Tidy(r: Region) {
      && pageSize > 0 && r.addr % pageSize == 0 && r.size % pageSize == 0
      && r.perms < 8 && (r.readonly ==> !Writable(r.perms))
    }

    ghost predicate Valid()
      reads this
    {
      && pageSize > 0 && WORD % pageSize == 0 && 0 < hostPage < WORD
      && Sorted(blocks) && Stored(blocks, host)
      && (forall i :: 0 <= i < |blocks| ==> Tidy(blocks[i]))
      && Roomy(|blocks|, capacity)
    }

    constructor (pageSize: nat, hostPage: nat, allocFails: nat -> bool, cacheIndex: nat)
      requires pageSize > 0 && WORD % pageSize == 0 && 0 < hostPage < WORD
      ensures Valid() && blocks == [] && host == map[]
      ensures this.pageSize == pageSize && this.hostPage == hostPage && this.allocFails == allocFails
      ensures this.cacheIndex == cacheIndex && !quitRequest
    {
      this.pageSize, this.hostPage, this.allocFails := pageSize, hostPage, allocFails;
      this.cacheIndex := cacheIndex;
      blocks, capacity, host, attempts, quitRequest := [], 0, map[], 0, false;
    }

    /** Where a region holding the address is or would be. */
    method BSearchMappedBlocks(address: nat) returns (i: nat)
      requires Sorted(blocks) && address < WORD
      ensures i <= |blocks|
      ensures forall j :: 0 <= j < i ==> blocks[j].addr + blocks[j].size <= address
      ensures forall j :: i <= j < |blocks| ==> address < blocks[j].addr + blocks[j].size
    {
      var left, right := 0, |blocks|;
      while left < right
        invariant 0 <= left <= right <= |blocks|
        invariant forall j :: 0 <= j < left ==> blocks[j].addr + blocks[j].size <= address
        invariant forall j :: right <= j < |blocks| ==> address < blocks[j].addr + blocks[j].size
      {
        var mid := left + (right - left) / 2;
        var mapping := blocks[mid];
        if Wrap(End(mapping) + WORD - 1) < address {
          left := mid + 1;
        } else if mapping.addr > address {
          right := mid;
        } else {
          return mid;
        }
      }
      return left;
    }

    /** memory_mapping: the one region that holds the address, whatever the cache index. */
    method MemoryMapping(address: nat) returns (r: Option<nat>)
      requires Sorted(blocks) && address < WORD
      ensures r.Some? ==> Hits(blocks, r.value, address)
      ensures r.None? ==> !Mapped(blocks, address)
    {
      if |blocks| == 0 { return None; }
      var i := cacheIndex;
      if i < |blocks| && address >= blocks[i].addr && address < End(blocks[i]) {
        return Some(i);
      }
      i := BSearchMappedBlocks(address);
      if i < |blocks| && address >= blocks[i].addr && address <= Wrap(End(blocks[i]) + WORD - 1) {
        return Some(i);
      }
      return None;
    }

    /** check_mem_area: all bytes are mapped, however many regions and whatever wraps. */
    method CheckMemArea(address: nat, size: nat) returns (r: bool)
      requires Sorted(blocks) && address < WORD && size < WORD
      ensures r <==> AllMapped(blocks, address, size)
    {
      var count, a := 0, address;
      while count < size
        invariant 0 <= count <= size && a == Wrap(address + count)
        decreases size - count
        invariant forall k :: 0 <= k < count ==> Mapped(blocks, Nth(address, k))
      {
        var mr := MemoryMapping(a);
        if mr.None? {
          assert a == Nth(address, count);
          break;
        }
        var region := blocks[mr.value];
        var len := ChunkLength(size - count, region, a);
        forall k | count <= k < count + len ensures Mapped(blocks, Nth(address, k)) {
          assert Hits(blocks, mr.value, Nth(address, k));
        }
        count := count + len;
        a := Wrap(a + len);
      }
      r := count == size;
    }

    /** memory_overlap, for a range that does not wrap. */
    method MemoryOverlap(begin: nat, size: nat) returns (r: bool)
      requires Sorted(blocks) && 0 < size && begin + size <= WORD
      ensures r <==> exists a :: begin <= a < begin + size && Mapped(blocks, a)
    {
      var end := begin + size - 1;
      var i := BSearchMappedBlocks(begin);
      if i >= |blocks| { return false; }
      if end >= blocks[i].addr {
        var first := if blocks[i].addr <= begin then begin else blocks[i].addr;
        assert Hits(blocks, i, first) && Mapped(blocks, first);
        return true;
      }
      return false;
    }

    ghost predicate BadArguments(address: nat, size: nat, perms: nat)
      requires pageSize > 0
    {
      size == 0 || address + size > WORD || address % pageSize != 0 || size % pageSize != 0 || perms >= 8
    }

    /** mem_map_check */
    method MemMapCheck(address: nat, size: nat, perms: nat) returns (err: Error)
      requires pageSize > 0 && Sorted(blocks) && address < WORD && size < WORD
      ensures err == ARG <==> BadArguments(address, size, perms)
      ensures err == MAP <==> !BadArguments(address, size, perms) &&
                              exists a :: address <= a < address + size && Mapped(blocks, a)
      ensures err in {OK, ARG, MAP}
    {
      if size == 0 { return ARG; }
      if Wrap(address + size - 1) < address { return ARG; }
      if address % pageSize != 0 { return ARG; }
      if size % pageSize != 0 { return ARG; }
      if perms >= 8 { return ARG; }
      var overlap := MemoryOverlap(address, size);
      return if overlap then MAP else OK;
    }

    /** mem_map: the new region goes where the sorted order wants it, within the capacity. */
    method MemMap(block: Option<Region>) returns (err: Error, ghost pos: nat)
      requires Valid()
      requires block.Some? ==> RegionOk(block.value) && Tidy(block.value)
      requires block.Some? ==> Stored([block.value], host) && Private(blocks, block.value)
      requires block.Some? ==> forall a :: Holds(block.value, a) ==> !Mapped(blocks, a)
      modifies this`blocks, this`capacity
      ensures Valid()
      ensures block.None? ==> err == NOMEM && blocks == old(blocks)
      ensures block.Some? ==> err == OK && Fits(old(blocks), pos, block.value) &&
                              blocks == Inserted(old(blocks), pos, block.value)
    {
      hide Sorted, Stored, Mapped, Roomy;
      if block.None? { return NOMEM, 0; }
      if |blocks| % MEM_BLOCK_INCR == 0 {
        RoomGrows(|blocks|);
        capacity := |blocks| + MEM_BLOCK_INCR;
      }
      var i := BSearchMappedBlocks(block.value.addr);
      GapFits(blocks, i, block.value);
      InsertSorted(blocks, i, block.value);
      BackedOne(block.value, host);
      InsertStored(blocks, host, i, block.value);
      RoomForOne(|blocks|, capacity);
      assert |blocks| + 1 <= capacity;
      blocks := Inserted(blocks, i, block.value);
      return OK, i;
    }

    /** memory_map: fresh host memory, if there is any. */
    method MemoryMapRam(begin: nat, size: nat, perms: nat) returns (r: Option<Region>)
      requires hostPage > 0 && Stored(blocks, host) && RegionOk(Region(begin, size, perms, false, false, 0, 0))
      modifies this`host, this`attempts
      ensures attempts == old(attempts) + 1 && r.None? == allocFails(old(attempts))
      ensures r.None? ==> host == old(host)
      ensures r.Some? ==> r.value == Region(begin, size, perms, !Writable(perms), false, r.value.buf, 0)
      ensures r.Some? ==> r.value.buf !in old(host) && Backed(r.value, host) && Private(blocks, r.value)
      ensures r.Some? ==> host == old(host)[r.value.buf := host[r.value.buf]]
      ensures r.Some? ==> forall k :: 0 <= k < size ==> host[r.value.buf][k] == 0
    {
      attempts := attempts + 1;
      if allocFails(attempts - 1) { return None; }
      var b := FreshAddress(host);
      host := host[b := seq(Rounded(size, hostPage), _ => 0)];
      return Some(Region(begin, size, perms, !Writable(perms), false, b, 0));
    }

    /** uc_mem_map */
    method UcMemMap(address: nat, size: nat, perms: nat) returns (err: Error)
      requires Valid() && address < WORD && size < WORD
      modifies this`blocks, this`capacity, this`host, this`attempts
      ensures Valid()
      ensures err == ARG <==> BadArguments(address, size, perms)
      ensures err == MAP <==> !BadArguments(address, size, perms) &&
                              exists a :: address <= a < address + size && Mapped(old(blocks), a)
      ensures err == NOMEM ==> allocFails(old(attempts))
      ensures err != OK ==> blocks == old(blocks) && host == old(host)
      ensures err == OK ==> !allocFails(old(attempts))
      ensures err == OK ==> Grown(old(blocks), old(host), blocks, host, address, size)
      ensures err == OK ==> HasFresh(blocks, address, size, perms, old(host))
      ensures err == OK ==> Keeps(old(blocks), blocks) && PieceOf(blocks, address, size, perms, None)
      ensures err == OK ==>
                forall a: nat ::
                  View(blocks, host, a) ==
                  if address <= a < address + size then Some(Cell(0, perms)) else old(View(blocks, host, a))
      ensures attempts >= old(attempts) && err in {OK, ARG, MAP, NOMEM}
    {
      hide Sorted, Stored, View, Mapped, Fits, Writable, Keeps, PieceOf;
      err := MemMapCheck(address, size, perms);
      if err != OK { return; }
      var block := MemoryMapRam(address, size, perms);
      label Allocated:
      ghost var pos;
      if block.Some? {
        HostKept(blocks, old(host), host);
        BackedOne(block.value, host);
      }
      err, pos := MemMap(block);
      if block.Some? {
        RegionShown(old(blocks), old(host), host, pos, block.value);
        InsertKeeps(old(blocks), pos, block.value);
        forall a: nat ensures View(blocks, host, a) ==
            if address <= a < address + size then Some(Cell(0, perms)) else old(View(blocks, host, a)) {
          HostView(old(blocks), old(host), host, a);
          InsertView(old(blocks), host, pos, block.value, a);
        }
      }
    }

    /** memory_map_ptr and uc_mem_map_ptr: the region shows the memory the caller gave. */
    method UcMemMapPtr(address: nat, size: nat, perms: nat, ptr: Option<(nat, nat)>) returns (err: Error)
      requires Valid() && address < WORD && size < WORD
      requires ptr.Some? ==> ptr.value.0 in host && ptr.value.1 + size <= |host[ptr.value.0]|
      requires ptr.Some? ==> NotOwned(blocks, ptr.value.0)
      modifies this`blocks, this`capacity
      ensures Valid()
      ensures err == ARG <==> ptr.None? || BadArguments(address, size, perms)
      ensures err == MAP <==> ptr.Some? && !BadArguments(address, size, perms) &&
                              exists a :: address <= a < address + size && Mapped(old(blocks), a)
      ensures err != OK ==> blocks == old(blocks)
      ensures err == OK ==> Grown(old(blocks), host, blocks, host, address, size)
      ensures err == OK ==> Keeps(old(blocks), blocks) && PieceOf(blocks, address, size, perms, ptr)
      ensures err == OK ==>
                forall a: nat ::
                  View(blocks, host, a) ==
                  if address <= a < address + size then Some(Cell(host[ptr.value.0][ptr.value.1 + (a - address)], perms))
                  else old(View(blocks, host, a))
      ensures err in {OK, ARG, MAP}
    {
      hide Sorted, Stored, View, Mapped, Fits, Writable, Keeps, PieceOf;
      if ptr.None? { return ARG; }
      err := MemMapCheck(address, size, perms);
      if err != OK { return; }
      var block := Region(address, size, perms, false, true, ptr.value.0, ptr.value.1);
      BackedOne(block, host);
      ghost var pos;
      err, pos := MemMap(Some(block));
      RegionShown(old(blocks), host, host, pos, block);
      InsertKeeps(old(blocks), pos, block);
      forall a: nat ensures View(blocks, host, a) ==
          if address <= a < address + size then Some(Cell(host[ptr.value.0][ptr.value.1 + (a - address)], perms))
          else old(View(blocks, host, a)) {
        InsertView(old(blocks), host, pos, block, a);
      }
    }

    /** uc_mem_read */
    method MemRead(address: nat, size: nat) returns (err: Error, bytes: seq<Byte>)
      requires Valid() && address < WORD && size < WORD
      ensures err == ARG <==> size > INT_MAX
      ensures err == READ_UNMAPPED <==> size <= INT_MAX && !AllMapped(blocks, address, size)
      ensures err in {OK, ARG, READ_UNMAPPED}
      ensures err == OK ==> |bytes| == size
      ensures err == OK ==>
                forall k: nat :: k < size ==>
                  View(blocks, host, Nth(address, k)).Some? && View(blocks, host, Nth(address, k)).value.value == bytes[k]
    {
      hide Sorted, Stored, View, Mapped;
      bytes := [];
      if size > INT_MAX { return ARG, bytes; }
      var mapped := CheckMemArea(address, size);
      if !mapped { return READ_UNMAPPED, bytes; }
      var count, a := 0, address;
      while count < size
        invariant 0 <= count <= size && a == Wrap(address + count) && |bytes| == count
        invariant forall k: nat :: k < count ==>
                    View(blocks, host, Nth(address, k)).Some? && View(blocks, host, Nth(address, k)).value.value == bytes[k]
        decreases size - count
      {
        assert a == Nth(address, count);
        var mr := MemoryMapping(a);
        if mr.None? { assert false; break; }
        var i := mr.value;
        RegionFacts(blocks, host, i);
        var len := ChunkLength(size - count, blocks[i], a);
        var o := blocks[i].off + (a - blocks[i].addr);
        forall k: nat | count <= k < count + len
          ensures View(blocks, host, Nth(address, k)) ==
                  Some(Cell(host[blocks[i].buf][o + (k - count)], blocks[i].perms)) {
          ViewIn(blocks, host, i, Nth(address, k));
        }
        bytes := bytes + host[blocks[i].buf][o..o + len];
        count := count + len;
        a := Wrap(a + len);
      }
      return if count == size then OK else READ_UNMAPPED, bytes;
    }

    /** write_mem on one region: read-only memory ignores the write. */
    method WriteMem(i: nat, a: nat, bytes: seq<Byte>)
      requires i < |blocks| && Backed(blocks[i], host) && blocks[i].addr <= a && a + |bytes| <= blocks[i].addr + blocks[i].size
      modifies this`host
      ensures host == if blocks[i].readonly then old(host)
                      else old(host)[blocks[i].buf := Spliced(old(host)[blocks[i].buf], blocks[i].off + (a - blocks[i].addr), bytes)]
    {
      var r := blocks[i];
      if !r.readonly {
        host := host[r.buf := Spliced(host[r.buf], r.off + (a - r.addr), bytes)];
      }
    }

    /** One step of uc_mem_write: protected memory is made writable for the time of the write. */
    method WriteChunk(i: nat, a: nat, bytes: seq<Byte>)
      requires Valid() && i < |blocks| && Backed(blocks[i], host) && RegionOk(blocks[i])
      requires blocks[i].addr <= a && a + |bytes| <= blocks[i].addr + blocks[i].size
      modifies this`host, this`blocks
      ensures Valid() && SameRegions(old(blocks), blocks)
      ensures blocks == if Writable(old(blocks)[i].perms) then old(blocks) else Flagged(old(blocks), i, old(blocks)[i].perms, true)
      ensures host == old(host)[blocks[i].buf := Spliced(old(host)[blocks[i].buf], blocks[i].off + (a - blocks[i].addr), bytes)]
    {
      hide Sorted, Stored, Writable, Spliced;
      var perms := blocks[i].perms;
      if !Writable(perms) {
        FlagOk(blocks, host, i, perms, false);
        blocks := Flagged(blocks, i, perms, false);
      }
      WriteMem(i, a, bytes);
      HostSizes(blocks, old(host), host);
      if !Writable(perms) {
        FlagOk(blocks, host, i, perms, true);
        blocks := Flagged(blocks, i, perms, true);
      }
    }

    /** uc_mem_write: permissions do not matter, and all bytes are written or none. */
    method MemWrite(address: nat, bytes: seq<Byte>) returns (err: Error)
      requires Valid() && address < WORD && |bytes| < WORD
      modifies this`host, this`blocks
      ensures Valid() && SameRegions(old(blocks), blocks)
      ensures err == OK ==> Marked(old(blocks), blocks, address, |bytes|)
      ensures err == ARG <==> |bytes| > INT_MAX
      ensures err == WRITE_UNMAPPED <==> |bytes| <= INT_MAX && !AllMapped(old(blocks), address, |bytes|)
      ensures err in {OK, ARG, WRITE_UNMAPPED}
      ensures err != OK ==> blocks == old(blocks) && host == old(host)
      ensures err == OK ==> Written(old(blocks), old(host), host, address, bytes)
    {
      hide Sorted, Stored, Written, Mapped, SameRegions, Spliced, Marked, Writable;
      WrittenStart(blocks, host, address);
      MarkedStart(blocks, address);
      var size := |bytes|;
      if size > INT_MAX { return ARG; }
      var mapped := CheckMemArea(address, size);
      if !mapped { return WRITE_UNMAPPED; }
      var count, a := 0, address;
      assert bytes[..0] == [];
      while count < size
        invariant 0 <= count <= size && a == Wrap(address + count) && Valid()
        invariant SameRegions(old(blocks), blocks) && Marked(old(blocks), blocks, address, count)
        invariant Written(old(blocks), old(host), host, address, bytes[..count])
        decreases size - count
      {
        assert a == Nth(address, count);
        SameRegionsHits(old(blocks), blocks, a);
        var mr := MemoryMapping(a);
        if mr.None? { assert false; break; }
        var i := mr.value;
        RegionFacts(blocks, host, i);
        var len := ChunkLength(size - count, blocks[i], a);
        SameRegionsAt(old(blocks), blocks, i);
        ghost var before, h := blocks, host;
        WriteChunk(i, a, bytes[count..count + len]);
        SameRegionsTrans(old(blocks), before, blocks, i);
        MarkedStep(old(blocks), before, blocks, i, address, count, len);
        WriteStep(old(blocks), old(host), h, host, address, bytes, count, len, i);
        count := count + len;
        a := Wrap(a + len);
      }
      assert bytes[..size] == bytes;
      return if count == size then OK else WRITE_UNMAPPED;
    }

    /** memory_unmap: one region disappears, and with it the memory the engine gave it. */
    method MemoryUnmap(mr: Region)
      requires Valid() && mr in blocks
      modifies this`blocks, this`host
      ensures Valid() && Erased(old(blocks), old(host), blocks, host, mr.addr, mr.addr + mr.size)
      ensures UserKept(old(blocks), old(host), blocks, host)
      ensures Pieces(old(blocks), blocks, 0, 0) && KeepsOutside(old(blocks), blocks, mr.addr, mr.addr + mr.size)
    {
      hide Sorted, Stored, View, Erased, UserKept, Pieces, Roomy, KeepsOutside;
      var i := 0;
      while blocks[i] != mr
        invariant i < |blocks| && mr in blocks[i..]
        decreases |blocks| - i
      {
        i := i + 1;
      }
      DropSorted(blocks, i);
      RoomShrinks(|blocks| - 1, capacity);
      blocks := Dropped(blocks, i);
      if !mr.prealloc {
        host := host - {mr.buf};
      }
      DropErased(old(blocks), old(host), host, i);
      DropKeeps(old(blocks), i);
    }

    /** copy_region */
    method CopyRegion(mr: Region) returns (r: Option<seq<Byte>>)
      requires Valid() && mr in blocks
      ensures r.None? <==> mr.size > INT_MAX
      ensures r.Some? ==> Backed(mr, host) && r.value == host[mr.buf][mr.off..mr.off + mr.size]
    {
      hide Sorted, Stored, View, Mapped;
      var i :| 0 <= i < |blocks| && blocks[i] == mr;
      RegionFacts(blocks, host, i);
      forall k: nat | k < mr.size ensures Nth(mr.addr, k) == mr.addr + k && Mapped(blocks, Nth(mr.addr, k)) {
        assert Hits(blocks, i, mr.addr + k);
        HitMapped(blocks, i, mr.addr + k);
      }
      var err, bytes := MemRead(mr.addr, mr.size);
      if err != OK { return None; }
      forall k: nat | k < mr.size ensures host[mr.buf][mr.off + k] == bytes[k] {
        assert Hits(blocks, i, Nth(mr.addr, k));
        ViewIn(blocks, host, i, Nth(mr.addr, k));
      }
      return Some(bytes);
    }

    /** used_length of the host block behind a region. */
    function UsedLength(r: Region): nat
      requires hostPage > 0
    {
      if r.prealloc then r.size else Rounded(r.size, hostPage)
    }

    /** The test of the scan for a block large enough to hold the region. */
    predicate Large(block: Region, mr: Region)
      requires 0 < hostPage < WORD && RegionOk(block) && RegionOk(mr)
    {
      block.addr <= mr.addr && Wrap(UsedLength(block) + block.addr) >= End(mr)
    }

    /** The scan over the host blocks. They are kept from the biggest to the smallest, so that
        the first one to pass the test is a biggest one. */
    method FindBlock(mr: Region) returns (r: Option<Region>)
      requires Valid() && RegionOk(mr)
      ensures r.Some? ==> r.value in blocks && RegionOk(r.value) && Large(r.value, mr)
      ensures r.Some? ==> forall i :: 0 <= i < |blocks| && Large(blocks[i], mr) ==> UsedLength(blocks[i]) <= UsedLength(r.value)
      ensures r.None? ==> forall i :: 0 <= i < |blocks| ==> !Large(blocks[i], mr)
    {
      hide Stored, Large, UsedLength;
      r := None;
      for n := 0 to |blocks|
        invariant r.Some? ==> r.value in blocks && RegionOk(r.value) && Large(r.value, mr)
        invariant r.Some? ==> forall i :: 0 <= i < n && Large(blocks[i], mr) ==> UsedLength(blocks[i]) <= UsedLength(r.value)
        invariant r.None? ==> forall i :: 0 <= i < n ==> !Large(blocks[i], mr)
      {
        if Large(blocks[n], mr) && (r.None? || UsedLength(blocks[n]) > UsedLength(r.value)) {
          r := Some(blocks[n]);
        }
      }
    }

    /** A block of the engine spans the region: host pages are larger than the pages of the
        target, and rounding up another region reaches over it. */
    ghost predicate Overlaid(b: seq<Region>, mr: Region)
      requires 0 < hostPage < WORD && Sorted(b) && RegionOk(mr)
    {
      exists i :: 0 <= i < |b| && !b[i].prealloc && Large(b[i], mr)
    }

    /** Such a block is bigger than the caller's memory and comes first. */
    lemma OverlaidBigger(b: seq<Region>, i: nat, mr: Region)
      requires 0 < hostPage < WORD && Sorted(b) && mr in b && RegionOk(mr) && mr.prealloc && !Reaches(mr)
      requires i < |b| && !b[i].prealloc && Large(b[i], mr)
      ensures UsedLength(b[i]) > UsedLength(mr)
    {
      var j :| 0 <= j < |b| && b[j] == mr;
      assert i != j;
      assert Wrap(UsedLength(b[i]) + b[i].addr) <= UsedLength(b[i]) + b[i].addr;
    }

    /** The backup is the caller's memory if and only if no block of the engine spans the region. */
    lemma BlockFound(b: seq<Region>, host: Host, block: Region, mr: Region)
      requires 0 < hostPage < WORD && Sorted(b) && Stored(b, host) && mr in b && RegionOk(mr) && !Reaches(mr)
      requires block in b && RegionOk(block) && Large(block, mr)
      requires forall i :: 0 <= i < |b| && Large(b[i], mr) ==> UsedLength(b[i]) <= UsedLength(block)
      ensures block.prealloc <==> mr.prealloc && !Overlaid(b, mr)
      ensures block.prealloc ==> block == mr && NotOwned(b, mr.buf)
    {
      hide Stored, NotOwned;
      var i :| 0 <= i < |b| && b[i] == block;
      if block.prealloc {
        OwnBlock(b, host, block, mr);
        forall j | 0 <= j < |b| && !b[j].prealloc ensures !Large(b[j], mr) {
          if Large(b[j], mr) { OverlaidBigger(b, j, mr); }
        }
      }
    }

    /** When the pages of the target are made of whole host pages, memory of the caller stays shared. */
    lemma NeverOverlaid(b: seq<Region>, mr: Region)
      requires 0 < hostPage < WORD && Sorted(b) && mr in b && RegionOk(mr) && mr.prealloc && !Reaches(mr)
      requires pageSize > 0 && pageSize % hostPage == 0 && forall i :: 0 <= i < |b| ==> Tidy(b[i])
      ensures !Overlaid(b, mr)
    {
      forall i: nat | i < |b| && !b[i].prealloc ensures !Large(b[i], mr) {
        RoundedWhole(b[i].size, pageSize, hostPage);
        if Large(b[i], mr) { OverlaidBigger(b, i, mr); }
      }
    }

    /** One piece of a split region: mapped again with the bytes it had. */
    method Remap(begin: nat, size: nat, perms: nat, backup: Backup, at: nat, ghost saved: seq<Byte>) returns (ok: bool)
      requires Valid() && 0 < size < WORD && begin + size <= WORD && at + size <= |saved|
      requires begin % pageSize == 0 && size % pageSize == 0 && perms < 8
      requires Free(blocks, begin, begin + size)
      requires Provides(blocks, host, backup, saved)
      modifies this`blocks, this`capacity, this`host, this`attempts
      ensures Valid() && attempts >= old(attempts) && UserKept(old(blocks), old(host), blocks, host)
      ensures ok ==> Grown(old(blocks), old(host), blocks, host, begin, size)
      ensures ok ==> Keeps(old(blocks), blocks) && PieceOf(blocks, begin, size, perms, SourceAt(backup, at))
      ensures ok ==> Shown(old(blocks), old(host), blocks, host, begin, saved[at..at + size], perms)
      ensures !ok ==> allocFails(old(attempts)) || (backup.Copied? && size > INT_MAX)
    {
      hide Sorted, Stored, View, Mapped, Shown, UserKept, Grown, Provides, HasFresh, Written, Keeps, PieceOf, SameRegions, Marked;
      ProvidesFacts(blocks, host, backup, saved);
      match backup {
        case Copied(bytes) =>
          var err := UcMemMap(begin, size, perms);
          if err != OK {
            UserKeptSame(blocks, host);
            return false;
          }
          GrownFacts(old(blocks), old(host), blocks, host, begin, size);
          ghost var b, h := blocks, host;
          PieceMapped(blocks, begin, size, perms, old(host));
          err := MemWrite(begin, bytes[at..at + size]);
          PieceKept(old(blocks), old(host), b, h, blocks, host, begin, saved[at..at + size], perms, err == OK);
          if err == OK { MarkedFresh(b, blocks, begin, size, perms, old(host)); }
          return err == OK;
        case Pointer(buf, off) =>
          var err := UcMemMapPtr(begin, size, perms, Some((buf, off + at)));
          GrownFacts(old(blocks), old(host), blocks, host, begin, size);
          PointerShown(old(blocks), host, blocks, begin, size, perms, buf, off, at, saved);
          return true;
      }
    }

    /** A piece, unless it is empty or not wanted. */
    method RemapSome(wanted: bool, begin: nat, size: nat, perms: nat, backup: Backup, at: nat, ghost saved: seq<Byte>)
      returns (ok: bool)
      requires Valid() && size < WORD && begin + size <= WORD && at + size <= |saved|
      requires begin % pageSize == 0 && size % pageSize == 0 && perms < 8
      requires Free(blocks, begin, begin + size) && Provides(blocks, host, backup, saved)
      modifies this`blocks, this`capacity, this`host, this`attempts
      ensures Valid() && attempts >= old(attempts)
      ensures UserKept(old(blocks), old(host), blocks, host) && Provides(blocks, host, backup, saved)
      ensures ok ==> Regrown(old(blocks), blocks, begin, begin + size)
      ensures ok && wanted && size > 0 ==> HasRegion(blocks, begin, size)
      ensures ok ==> Keeps(old(blocks), blocks)
      ensures ok && wanted && size > 0 ==> PieceOf(blocks, begin, size, perms, SourceAt(backup, at))
      ensures ok ==> Shown(old(blocks), old(host), blocks, host, begin, if wanted then saved[at..at + size] else [], perms)
      ensures !ok ==> allocFails(old(attempts)) || (backup.Copied? && size > INT_MAX)
    {
      hide Sorted, Stored, View, Mapped, Shown, UserKept, Grown, Provides, Regrown, HasRegion, Keeps, PieceOf;
      UserKeptSame(blocks, host);
      KeepsSame(blocks);
      RegrownSame(blocks, begin, begin + size);
      if size > 0 && wanted {
        ok := Remap(begin, size, perms, backup, at, saved);
        ProvidesKept(old(blocks), old(host), blocks, host, backup, saved);
        if ok { GrownRegrown(old(blocks), old(host), blocks, host, begin, size); }
      } else {
        ok := true;
        ShownNothing(blocks, host, begin, perms);
        assert (if wanted then saved[at..at + size] else []) == [];
      }
    }

    /** The last part of split_region: the pieces on the left and right, and unless it is to
        be deleted the one between them, are mapped again. */
    method Rebuild(begin: nat, lSize: nat, mSize: nat, rSize: nat, perms: nat, backup: Backup, doDelete: bool,
                   ghost saved: seq<Byte>)
      returns (ok: bool)
      requires Valid() && 0 < mSize && lSize + mSize + rSize == |saved| < WORD && begin + |saved| <= WORD && perms < 8
      requires begin % pageSize == 0 && lSize % pageSize == 0 && mSize % pageSize == 0 && rSize % pageSize == 0
      requires Free(blocks, begin, begin + |saved|) && Provides(blocks, host, backup, saved)
      modifies this`blocks, this`capacity, this`host, this`attempts
      ensures Valid() && UserKept(old(blocks), old(host), blocks, host) && attempts >= old(attempts)
      ensures ok ==> Regrown(old(blocks), blocks, begin, begin + |saved|)
      ensures ok && !doDelete ==> HasRegion(blocks, begin + lSize, mSize)
      ensures ok ==> Keeps(old(blocks), blocks)
      ensures ok && lSize > 0 ==> PieceOf(blocks, begin, lSize, perms, SourceAt(backup, 0))
      ensures ok && !doDelete ==> PieceOf(blocks, begin + lSize, mSize, perms, SourceAt(backup, lSize))
      ensures ok && rSize > 0 ==> PieceOf(blocks, begin + lSize + mSize, rSize, perms, SourceAt(backup, lSize + mSize))
      ensures ok ==> Rebuilt(old(blocks), old(host), blocks, host, begin, lSize, mSize, perms, doDelete, saved)
      ensures !ok ==> (exists n: nat :: n >= old(attempts) && allocFails(n)) || (backup.Copied? && |saved| > INT_MAX)
    {
      hide Sorted, Stored, View, Mapped, Shown, UserKept, Grown, Provides, Regrown, Free, Rebuilt, HasRegion, Keeps, PieceOf;
      ghost var b0, h0 := blocks, host;
      ghost var mid, right, end := begin + lSize, begin + lSize + mSize, begin + |saved|;
      FreePart(blocks, begin, end, begin, mid);
      FreePart(blocks, begin, end, mid, end);
      ok := RemapSome(true, begin, lSize, perms, backup, 0, saved);
      if !ok { return; }
      ghost var b1, h1 := blocks, host;
      ModSum(begin, lSize, pageSize);
      StillFree(b0, h0, b1, h1, begin, saved[0..0 + lSize], perms, mid, end);
      FreePart(b1, mid, end, mid, right);
      FreePart(b1, mid, end, right, end);
      ok := RemapSome(!doDelete, begin + lSize, mSize, perms, backup, lSize, saved);
      UserKeptTrans(b0, h0, b1, h1, blocks, host);
      if !ok { return; }
      ghost var b2, h2 := blocks, host;
      ModSum(begin + lSize, mSize, pageSize);
      StillFree(b1, h1, b2, h2, mid, if !doDelete then saved[lSize..lSize + mSize] else [], perms, right, end);
      ok := RemapSome(true, begin + lSize + mSize, rSize, perms, backup, lSize + mSize, saved);
      UserKeptTrans(b0, h0, b2, h2, blocks, host);
      if !ok { return; }
      RebuiltView(b0, h0, b1, h1, b2, h2, blocks, host, begin, lSize, mSize, rSize, perms, doDelete, saved);
      RegrownTrans(b0, b1, begin, mid, b2, mid, right, begin, end);
      RegrownTrans(b0, b2, begin, end, blocks, right, end, begin, end);
      if !doDelete {
        RegrownKeeps(b2, blocks, right, end, mid, mSize);
        KeepsPiece(b2, blocks, begin + lSize, mSize, perms, SourceAt(backup, lSize));
      }
      KeepsTrans(b1, b2, blocks);
      KeepsTrans(b0, b1, blocks);
      if lSize > 0 { KeepsPiece(b1, blocks, begin, lSize, perms, SourceAt(backup, 0)); }
    }

    /** Small enough to copy, and far enough from the top for the block scan not to wrap. */
    ghost predicate Splittable(r: Region) {
      r.size <= INT_MAX && r.addr + r.size + hostPage <= WORD
    }

    /** No allocation fails from now on. */
    ghost predicate Ample()
      reads this`attempts
    {
      forall n: nat :: n >= attempts ==> !allocFails(n)
    }

    /** The backup split_region takes: the caller's memory, or a copy. */
    method TakeBackup(mr: Region) returns (r: Option<Backup>)
      requires Valid() && mr in blocks && RegionOk(mr) && !Reaches(mr)
      ensures Backed(mr, host)
      ensures r.Some? ==> Provides(blocks, host, r.value, host[mr.buf][mr.off..mr.off + mr.size])
      ensures r.Some? && r.value.Copied? ==> mr.size <= INT_MAX
      ensures r.Some? && mr.prealloc && !Overlaid(blocks, mr) ==> r.value == Pointer(mr.buf, mr.off)
      ensures r.Some? && !(mr.prealloc && !Overlaid(blocks, mr)) ==> r.value.Copied?
      ensures Splittable(mr) ==> r.Some?
    {
      hide Sorted, Stored, View, NotOwned, Overlaid;
      ghost var i :| 0 <= i < |blocks| && blocks[i] == mr;
      RegionFacts(blocks, host, i);
      var block := FindBlock(mr);
      if block.None? {
        assert !Large(blocks[i], mr);
        return None;
      }
      BlockFound(blocks, host, block.value, mr);
      if block.value.prealloc {
        return Some(Pointer(block.value.buf, block.value.off));
      }
      var copy := CopyRegion(mr);
      if copy.None? { return None; }
      return Some(Copied(copy.value));
    }

    /** split_region, called on a part of one region. Unmapping all of the region and mapping
        the pieces again is what makes it and uc_mem_unmap call each other. */
    method SplitRegion(mr: Region, address: nat, size: nat, doDelete: bool) returns (ok: bool)
      requires Valid() && mr in blocks && RegionOk(mr)
      requires mr.addr <= address < WORD && size < WORD && address + size <= mr.addr + mr.size
      requires address % pageSize == 0 && size % pageSize == 0
      modifies this`blocks, this`capacity, this`host, this`attempts
      ensures Valid() && attempts >= old(attempts) && UserKept(old(blocks), old(host), blocks, host)
      ensures size == 0 || Covered(mr, address, size) ==> ok && blocks == old(blocks) && host == old(host)
      ensures size > 0 && !Covered(mr, address, size) && Reaches(mr) ==> !ok && blocks == old(blocks) && host == old(host)
      ensures ok && size > 0 && !Covered(mr, address, size) ==>
                SplitDone(old(blocks), old(host), blocks, host, mr, address, size, doDelete)
      ensures Splittable(mr) && old(Ample()) ==> ok
      ensures ok && size > 0 && !Covered(mr, address, size) ==>
                PiecesFrom(blocks, mr, address, size, doDelete, mr.prealloc && !Overlaid(old(blocks), mr)) &&
                KeepsOutside(old(blocks), blocks, mr.addr, mr.addr + mr.size)
      decreases if Covered(mr, address, size) then 0 else 2, 0
    {
      hide Sorted, Stored, View, Mapped, UserKept, Provides, SplitDone, Rebuilt, Regrown, Erased, Pieces, HasRegion, PieceOf, Roomy, PiecesFrom,
           Overlaid, Keeps, KeepsOutside, SharesNoMore, SharesSame, SharingWithin;
      UserKeptSame(blocks, host);
      var chunkEnd := Wrap(address + size);
      if address <= mr.addr && chunkEnd >= End(mr) { return true; }
      if size == 0 { return true; }
      if address >= End(mr) || chunkEnd <= mr.addr { return false; }
      var backup := TakeBackup(mr);
      if backup.None? { return false; }
      ghost var saved := host[mr.buf][mr.off..mr.off + mr.size];
      ghost var b0, h0 := blocks, host;
      SavedView(blocks, host, mr, saved);
      RegionHas(blocks, mr);
      var begin, end, from := mr.addr, End(mr), address;
      var err := MemUnmap(mr.addr, mr.size);
      if err != OK { return false; }
      ghost var b1, h1 := blocks, host;
      ProvidesKept(b0, h0, b1, h1, backup.value, saved);
      ErasedFree(b0, h0, b1, h1, mr.addr, mr.addr + mr.size);
      if from < begin { from := begin; }
      if chunkEnd > end { chunkEnd := end; }
      var lSize, rSize, mSize := from - begin, end - chunkEnd, chunkEnd - from;
      SplitAligned(mr.addr, mr.size, address, size, pageSize);
      ok := Rebuild(begin, lSize, mSize, rSize, mr.perms, backup.value, doDelete, saved);
      UserKeptTrans(b0, h0, b1, h1, blocks, host);
      if ok {
        SplitCombine(b0, h0, b1, h1, blocks, host, mr, address, size, doDelete, saved);
        KeepsOutsideMore(b0, b1, blocks, mr.addr, mr.addr + mr.size);
        PiecesBuilt(blocks, mr, address, size, doDelete, backup.value, mr.prealloc && !Overlaid(b0, mr));
      }
    }

    /** Splitting the region for this part of it would cost it the memory of the caller. */
    ghost predicate Loses(b: seq<Region>, mr: Region, address: nat, size: nat)
      requires 0 < hostPage < WORD && Sorted(b) && RegionOk(mr) && address < WORD && size < WORD
    {
      !Covered(mr, address, size) && Overlaid(b, mr)
    }

    ghost predicate Encloses(r: Region, address: nat, size: nat) {
      r.addr <= address && address + size <= r.addr + r.size
    }

    /** What a call on a part of one region does to sharing. */
    ghost predicate SharingWithin(b0: seq<Region>, b1: seq<Region>, address: nat, size: nat)
      requires 0 < hostPage < WORD && Sorted(b0) && address < WORD && size < WORD
    {
      forall i :: 0 <= i < |b0| && Encloses(b0[i], address, size) ==> Sharing(b0, b1, b0[i], Loses(b0, b0[i], address, size))
    }

    ghost predicate Enclosed(b: seq<Region>, address: nat, size: nat) {
      exists i :: 0 <= i < |b| && Encloses(b[i], address, size)
    }

    /** A range inside one region is one chunk. */
    lemma OneChunk(b: seq<Region>, j: nat, address: nat, size: nat, len: nat)
      requires Sorted(b) && address < WORD && 0 < size < WORD && Hits(b, j, address) && len == ChunkLength(size, b[j], address)
      ensures Enclosed(b, address, size) ==> len == size
      ensures forall i :: 0 <= i < |b| && Encloses(b[i], address, size) ==> i == j
    {
      forall i | 0 <= i < |b| && Encloses(b[i], address, size) ensures i == j && len == size {
        assert Hits(b, i, address);
        HitUnique(b, i, j, address);
      }
    }

    /** Sharing after `count` bytes of a call: none is new, with target pages of whole host
        pages all of it is kept, and inside one region exactly Loses decides. */
    ghost predicate SharingKept(b0: seq<Region>, b1: seq<Region>, address: nat, size: nat, count: nat)
      requires 0 < hostPage < WORD && Sorted(b0) && address < WORD && size < WORD
    {
      && SharesNoMore(b0, b1)
      && (pageSize % hostPage == 0 ==> SharesSame(b0, b1))
      && (Enclosed(b0, address, size) ==> count == 0 || count == size)
      && (count > 0 ==> SharingWithin(b0, b1, address, size))
    }

    lemma SharingStart(b: seq<Region>, address: nat, size: nat)
      requires 0 < hostPage < WORD && Sorted(b) && address < WORD && size < WORD
      ensures SharingKept(b, b, address, size, 0)
    {
      hide SharesNoMore, SharesSame;
      SharedSame(b);
    }

    /** One more round, on the sharing. */
    lemma SharingStep(b0: seq<Region>, b: seq<Region>, b1: seq<Region>, j: nat, address: nat, size: nat, count: nat, addr: nat, len: nat)
      requires 0 < hostPage < WORD && Sorted(b0) && Sorted(b) && address < WORD && count < size < WORD && addr < WORD
      requires pageSize > 0 && forall i :: 0 <= i < |b| ==> Tidy(b[i])
      requires Hits(b, j, addr) && RegionOk(b[j]) && len == ChunkLength(size - count, b[j], addr)
      requires count == 0 ==> b == b0 && addr == address
      requires Sharing(b, b1, b[j], Loses(b, b[j], addr, len)) && SharingKept(b0, b, address, size, count)
      requires !Covered(b[j], addr, len) ==> !Reaches(b[j])
      ensures SharingKept(b0, b1, address, size, count + len)
    {
      hide Sharing, SharesNoMore, SharesSame, Sorted, Overlaid, Covered, Tidy;
      SharesStep(b0, b, b1, b[j], Loses(b, b[j], addr, len));
      if count == 0 { OneChunk(b, j, address, size, len); }
      if pageSize % hostPage == 0 { NothingLost(b0, b, b1, b[j], addr, len); }
    }

    /** With target pages of whole host pages nothing is lost. */
    lemma NothingLost(b0: seq<Region>, b: seq<Region>, b1: seq<Region>, mr: Region, addr: nat, len: nat)
      requires 0 < hostPage < WORD && Sorted(b) && mr in b && RegionOk(mr) && addr < WORD && len < WORD
      requires pageSize > 0 && pageSize % hostPage == 0 && forall i :: 0 <= i < |b| ==> Tidy(b[i])
      requires SharesSame(b0, b) && Sharing(b, b1, mr, Loses(b, mr, addr, len))
      requires !Covered(mr, addr, len) ==> !Reaches(mr)
      ensures SharesSame(b0, b1)
    {
      hide Sharing, SharesSame, Sorted, Overlaid, Covered, Tidy;
      if mr.prealloc && !Reaches(mr) { NeverOverlaid(b, mr); }
      NothingToLose(b, b1, mr, Loses(b, mr, addr, len));
      SharesSameTrans(b0, b, b1);
    }

    /** One round of the loop of uc_mem_unmap. */
    method UnmapStep(mr: Region, addr: nat, len: nat) returns (ok: bool)
      requires Valid() && mr in blocks && RegionOk(mr) && Holds(mr, addr)
      requires 0 < len < WORD && addr + len <= mr.addr + mr.size && addr % pageSize == 0 && len % pageSize == 0
      modifies this`blocks, this`capacity, this`host, this`attempts
      ensures Valid() && attempts >= old(attempts) && UserKept(old(blocks), old(host), blocks, host)
      ensures Covered(mr, addr, len) ==>
                ok && Pieces(old(blocks), blocks, 0, 0) &&
                Erased(old(blocks), old(host), blocks, host, mr.addr, mr.addr + mr.size)
      ensures ok && !Covered(mr, addr, len) ==>
                !Reaches(mr) && SplitDone(old(blocks), old(host), blocks, host, mr, addr, len, true) &&
                Pieces(old(blocks), blocks, mr.addr, mr.addr + mr.size)
      ensures ok ==> Sharing(old(blocks), blocks, mr, Loses(old(blocks), mr, addr, len))
      ensures ok ==> KeepsOutside(old(blocks), blocks, mr.addr, mr.addr + mr.size)
      ensures !Covered(mr, addr, len) && Reaches(mr) ==> !ok && blocks == old(blocks) && host == old(host)
      ensures Splittable(mr) && old(Ample()) ==> ok
      decreases if Covered(mr, addr, len) then 0 else 2, 1
    {
      hide Sorted, Stored, View, Mapped, UserKept, SplitDone, Erased, Pieces, HasRegion, Sharing, KeepsOutside, PiecesFrom, Overlaid;
      ok := SplitRegion(mr, addr, len, true);
      if !ok { return; }
      ghost var b1, h1 := blocks, host;
      if !Covered(mr, addr, len) {
        SplitGone(old(blocks), old(host), blocks, host, mr, addr, len);
        SplitSharing(old(blocks), old(host), blocks, host, mr, addr, len, true, Overlaid(old(blocks), mr));
      }
      var again := MemoryMapping(addr);
      if again.Some? {
        HitMapped(blocks, again.value, addr);
        SameRegion(blocks, mr, again.value, addr);
        MemoryUnmap(blocks[again.value]);
        UserKeptTrans(old(blocks), old(host), b1, h1, blocks, host);
        GoneSharing(old(blocks), old(host), blocks, host, mr);
      } else if Covered(mr, addr, len) {
        RegionMapped(blocks, mr, addr);
        assert false;
      }
    }

    /** Every region the range meets lies inside it and is not entered in the middle, or can
        be split, or reaches the top of memory and is not entered in the middle. */
    ghost predicate Easy(r: Region, address: nat, size: nat)
      requires address < WORD && size < WORD
    {
      || Splittable(r)
      || (forall a: nat :: Holds(r, a) ==> !InRange(a, address, size))
      || ((forall a: nat :: Holds(r, a) ==> InRange(a, address, size)) && !(r.addr < address < r.addr + r.size))
      || (Reaches(r) && address <= r.addr)
    }

    ghost predicate AllEasy(b: seq<Region>, address: nat, size: nat)
      requires address < WORD && size < WORD
    {
      forall i :: 0 <= i < |b| ==> Easy(b[i], address, size)
    }

    /** Every region is small enough to be split, or reaches the top of memory. */
    ghost predicate NoneHuge(b: seq<Region>) {
      forall i :: 0 <= i < |b| ==> Splittable(b[i]) || Reaches(b[i])
    }

    lemma NotEnteredEasy(b: seq<Region>, address: nat, size: nat)
      requires address < WORD && size < WORD
      ensures NoneHuge(b) && !Entered(b, address) ==> AllEasy(b, address, size)
    {}

    /** A region that cannot be split is covered whole when the range comes to it. */
    lemma EasyChunk(b0: seq<Region>, b: seq<Region>, mr: Region, address: nat, size: nat, count: nat, len: nat)
      requires address < WORD && count < size < WORD && Sorted(b) && mr in b && RegionOk(mr) && Holds(mr, Nth(address, count))
      requires Frontier(b0, b, address, count) && AllEasy(b, address, size) && len == ChunkLength(size - count, mr, Nth(address, count))
      ensures Covered(mr, Nth(address, count), len) || Splittable(mr)
    {
      hide Sorted, HasRegion;
      var i :| 0 <= i < |b| && b[i] == mr;
      var addr := Nth(address, count);
      assert Easy(b[i], address, size) && Hits(b, i, addr) && InRange(addr, address, size);
      if !Splittable(mr) {
        assert mr.addr == addr;
        if !Reaches(mr) { ChunkWhole(mr, address, size, count); }
      }
    }

    lemma EasyStep(b: seq<Region>, b': seq<Region>, mr: Region, address: nat, size: nat, covered: bool)
      requires address < WORD && size < WORD && AllEasy(b, address, size) && mr in b && Sorted(b')
      requires covered ==> Pieces(b, b', 0, 0)
      requires !covered ==> Splittable(mr) && Pieces(b, b', mr.addr, mr.addr + mr.size)
      ensures AllEasy(b', address, size)
    {
      forall j | 0 <= j < |b'| ensures Easy(b'[j], address, size) {
        assert RegionOk(b'[j]);
        if HasRegion(b, b'[j].addr, b'[j].size) {
          var i :| 0 <= i < |b| && b[i].addr == b'[j].addr && b[i].size == b'[j].size;
          assert Easy(b[i], address, size);
          EasySame(b[i], b'[j], address, size);
        }
      }
    }

    lemma EasySame(r: Region, r': Region, address: nat, size: nat)
      requires address < WORD && size < WORD && Easy(r, address, size) && r.addr == r'.addr && r.size == r'.size
      ensures Easy(r', address, size)
    {
      assert forall a: nat :: Holds(r, a) <==> Holds(r', a);
    }

    /** The loop of uc_mem_unmap over a range that is mapped. */
    method UnmapRange(address: nat, size: nat) returns (ok: bool)
      requires Valid() && address < WORD && 0 < size < WORD && AllMapped(blocks, address, size)
      requires address % pageSize == 0 && size % pageSize == 0
      modifies this`blocks, this`capacity, this`host, this`attempts
      ensures Valid() && attempts >= old(attempts) && UserKept(old(blocks), old(host), blocks, host)
      ensures ok ==> Unmapped(old(blocks), old(host), blocks, host, address, size)
      ensures old(AllEasy(blocks, address, size)) && old(Ample()) ==> ok
      ensures Entered(old(blocks), address) ==> !ok && blocks == old(blocks) && host == old(host)
      ensures HasRegion(old(blocks), address, size) ==>
                ok && Pieces(old(blocks), blocks, 0, 0) && Erased(old(blocks), old(host), blocks, host, address, address + size) &&
                KeepsOutside(old(blocks), blocks, address, address + size)
      ensures ok ==> SharingKept(old(blocks), blocks, address, size, size) && KeepsAway(old(blocks), blocks, address, size)
      decreases if HasRegion(blocks, address, size) then 1 else 3, 0
    {
      hide Sorted, Stored, View, Mapped, UserKept, SplitDone, Erased, Pieces, HasRegion, Unmapped, Underway, Frontier, AllMapped,
           AllEasy, InRange, Covered, Nth, Wrap, Splittable, Roomy, Entered,
           Sharing, SharingKept, KeepsOutside, KeepsAway, Loses;
      UserKeptSame(blocks, host);
      SharingStart(blocks, address, size);
      KeepsAwaySame(blocks, address, size);
      ghost var b0, h0, whole, easy := blocks, host, HasRegion(blocks, address, size), AllEasy(blocks, address, size) && Ample();
      var addr, count := address, 0;
      UnderwayStart(blocks, host, address);
      NthStep(address, 0, 0);
      while count < size
        invariant 0 <= count <= size && addr == Nth(address, count) && addr % pageSize == 0 && count % pageSize == 0
        invariant Valid() && attempts >= old(attempts) && UserKept(b0, h0, blocks, host)
        invariant count == 0 ==> blocks == b0 && host == h0
        invariant Entered(b0, address) ==> count == 0
        invariant count < size ==> Underway(b0, h0, blocks, host, address, count) && Frontier(b0, blocks, address, count)
        invariant count == size ==> Unmapped(b0, h0, blocks, host, address, size)
        invariant easy && count < size ==> AllEasy(blocks, address, size) && Ample()
        invariant whole && count > 0 ==> count == size && Pieces(b0, blocks, 0, 0) && Erased(b0, h0, blocks, host, address, address + size) &&
                                         KeepsOutside(b0, blocks, address, address + size)
        invariant SharingKept(b0, blocks, address, size, count) && KeepsAway(b0, blocks, address, size)
        decreases size - count
      {
        StillMapped(b0, h0, blocks, host, address, size, count);
        var found := MemoryMapping(addr);
        var mr := blocks[found.value];
        RegionFacts(blocks, host, found.value);
        var len := ChunkLength(size - count, mr, addr);
        ChunkAligned(mr, addr, len, size, count, pageSize);
        if whole { WholeChunk(blocks, mr, address, size, len); }
        if easy { EasyChunk(b0, blocks, mr, address, size, count, len); }
        if Entered(b0, address) { EnteredChunk(blocks, found.value, address, len); }
        ghost var b, h := blocks, host;
        ok := UnmapStep(mr, addr, len);
        UserKeptTrans(b0, h0, b, h, blocks, host);
        if !ok { return; }
        UnderwayStep(b0, h0, b, h, blocks, host, mr, address, size, count, len);
        SharingStep(b0, b, blocks, found.value, address, size, count, addr, len);
        InsideRange(address, size, count);
        KeepsAwayStep(b0, b, blocks, mr, address, size, addr);
        if easy { EasyStep(b, blocks, mr, address, size, Covered(mr, addr, len)); }
        NthStep(address, count, len);
        count := count + len;
        addr := Wrap(addr + len);
      }
      ok := true;
    }

    /** uc_mem_unmap */
    method MemUnmap(address: nat, size: nat) returns (err: Error)
      requires Valid() && address < WORD && size < WORD
      modifies this`blocks, this`capacity, this`host, this`attempts
      ensures Valid() && attempts >= old(attempts) && UserKept(old(blocks), old(host), blocks, host)
      ensures size == 0 ==> err == OK && blocks == old(blocks) && host == old(host)
      ensures err == ARG <==> size > 0 && (address % pageSize != 0 || size % pageSize != 0)
      ensures err == ARG ==> blocks == old(blocks) && host == old(host)
      ensures err != ARG && !AllMapped(old(blocks), address, size) ==> err == NOMEM && blocks == old(blocks) && host == old(host)
      ensures err in {OK, ARG, NOMEM}
      ensures err == OK && size > 0 ==> Unmapped(old(blocks), old(host), blocks, host, address, size)
      ensures err != ARG && AllMapped(old(blocks), address, size) && old(AllEasy(blocks, address, size)) && old(Ample()) ==> err == OK
      ensures err != ARG && size > 0 && Entered(old(blocks), address) ==> err == NOMEM && blocks == old(blocks) && host == old(host)
      ensures err != ARG && size > 0 && AllMapped(old(blocks), address, size) && old(NoneHuge(blocks)) && old(Ample()) ==>
                (err == OK <==> !Entered(old(blocks), address))
      ensures err != ARG && size > 0 && HasRegion(old(blocks), address, size) ==>
                err == OK && Pieces(old(blocks), blocks, 0, 0) && Erased(old(blocks), old(host), blocks, host, address, address + size) &&
                KeepsOutside(old(blocks), blocks, address, address + size)
      ensures err == OK ==> SharesNoMore(old(blocks), blocks)
      ensures err == OK && size > 0 ==> SharingWithin(old(blocks), blocks, address, size)
      ensures err == OK && pageSize % hostPage == 0 ==> SharesSame(old(blocks), blocks)
      ensures err == OK ==> KeepsAway(old(blocks), blocks, address, size)
      decreases if HasRegion(blocks, address, size) then 1 else 3, 1
    {
      hide Sorted, Stored, UserKept, Erased, Pieces, HasRegion, Unmapped, AllMapped, AllEasy, Roomy, Entered, NoneHuge,
           SharesNoMore, SharesSame, SharingWithin, KeepsOutside, KeepsAway;
      UserKeptSame(blocks, host);
      SharedSame(blocks);
      KeepsAwaySame(blocks, address, size);
      NothingMapped(blocks, address);
      NotEnteredEasy(blocks, address, size);
      WholeMapped(blocks, address, size);
      if size == 0 { return OK; }
      if address % pageSize != 0 { return ARG; }
      if size % pageSize != 0 { return ARG; }
      var mapped := CheckMemArea(address, size);
      if !mapped { return NOMEM; }
      var ok := UnmapRange(address, size);
      return if ok then OK else NOMEM;
    }

    /** One round of the loop of uc_mem_protect; `removes` when execution is no longer allowed. */
    method ProtectStep(mr: Region, addr: nat, len: nat, perms: nat) returns (ok: bool, removes: bool)
      requires Valid() && mr in blocks && RegionOk(mr) && Holds(mr, addr) && perms < 8
      requires 0 < len < WORD && addr + len <= mr.addr + mr.size && addr % pageSize == 0 && len % pageSize == 0
      modifies this`blocks, this`capacity, this`host, this`attempts
      ensures Valid() && attempts >= old(attempts) && UserKept(old(blocks), old(host), blocks, host)
      ensures Covered(mr, addr, len) ==>
                ok && Pieces(old(blocks), blocks, 0, 0) &&
                Repermed(old(blocks), old(host), blocks, host, mr.addr, mr.addr + mr.size, perms)
      ensures ok && !Covered(mr, addr, len) ==>
                !Reaches(mr) && Pieces(old(blocks), blocks, mr.addr, mr.addr + mr.size) &&
                Repermed(old(blocks), old(host), blocks, host, addr, addr + len, perms)
      ensures !Covered(mr, addr, len) && Reaches(mr) ==> !ok && blocks == old(blocks) && host == old(host)
      ensures ok ==> (removes <==> Executable(mr.perms) && !Executable(perms))
      ensures ok ==> KeepsOutside(old(blocks), blocks, mr.addr, mr.addr + mr.size)
      ensures ok ==> if Covered(mr, addr, len) then Sealed(blocks, mr.addr, mr.size, perms) else Sealed(blocks, addr, len, perms)
      ensures ok ==> Sharing(old(blocks), blocks, mr, Loses(old(blocks), mr, addr, len))
      ensures Splittable(mr) && old(Ample()) ==> ok
    {
      hide Sorted, Stored, View, Mapped, UserKept, SplitDone, Erased, Pieces, HasRegion, Repermed, Roomy, Writable, Executable,
           Sharing, KeepsOutside, PiecesFrom, Overlaid, Sealed;
      ok := SplitRegion(mr, addr, len, false);
      if !ok { return false, false; }
      ghost var b1, h1 := blocks, host;
      if Covered(mr, addr, len) {
        RegionMapped(blocks, mr, addr);
        SharingSame(blocks, mr);
        KeepsOutsideSame(blocks, mr.addr, mr.addr + mr.size);
      } else {
        PartMapped(old(blocks), old(host), b1, h1, mr, addr, len);
        SplitSharing(old(blocks), old(host), b1, h1, mr, addr, len, false, Overlaid(old(blocks), mr));
      }
      var again := MemoryMapping(addr);
      var i := again.value;
      if Covered(mr, addr, len) {
        SameRegion(blocks, mr, i, addr);
      } else {
        SplitPart(old(blocks), old(host), b1, h1, mr, addr, len, i);
      }
      removes := Executable(blocks[i].perms) && !Executable(perms);
      FlagOk(blocks, host, i, perms, !Writable(perms));
      blocks := Flagged(blocks, i, perms, !Writable(perms));
      FlagRepermed(b1, host, i, perms, !Writable(perms));
      FlagSeals(old(blocks), b1, i, mr.addr, mr.addr + mr.size, perms);
      FlagSharing(old(blocks), b1, mr, Loses(old(blocks), mr, addr, len), i, perms, !Writable(perms));
      UserKeptTrans(old(blocks), old(host), b1, h1, blocks, host);
      if !Covered(mr, addr, len) {
        SplitRepermed(old(blocks), old(host), b1, h1, blocks, mr, addr, len, perms);
      }
    }

    /** The loop of uc_mem_protect over a range that is mapped. */
    method ProtectRange(address: nat, size: nat, perms: nat) returns (ok: bool, removeExec: bool)
      requires Valid() && address < WORD && 0 < size < WORD && AllMapped(blocks, address, size) && perms < 8
      requires address % pageSize == 0 && size % pageSize == 0
      modifies this`blocks, this`capacity, this`host, this`attempts
      ensures Valid() && attempts >= old(attempts) && UserKept(old(blocks), old(host), blocks, host)
      ensures ok ==> Protected(old(blocks), old(host), blocks, host, address, size, perms)
      ensures ok ==> (removeExec <==> ExecutableIn(old(blocks), old(host), address, size) && !Executable(perms))
      ensures ok ==> SharingKept(old(blocks), blocks, address, size, size)
      ensures ok ==> AllSealed(blocks, address, size, perms) && KeepsAway(old(blocks), blocks, address, size)
      ensures old(AllEasy(blocks, address, size)) && old(Ample()) ==> ok
      ensures Entered(old(blocks), address) ==> !ok && blocks == old(blocks) && host == old(host)
    {
      hide Sorted, Stored, View, Mapped, UserKept, Pieces, HasRegion, Repermed, Protected, Protecting, Frontier, AllMapped,
           AllEasy, InRange, Covered, Nth, Wrap, Splittable, Roomy, Executable, ExecutableIn, Entered,
           Sharing, SharingKept, Loses, KeepsOutside, KeepsAway, Settled, AllSealed, Sealed;
      UserKeptSame(blocks, host);
      SharingStart(blocks, address, size);
      KeepsAwaySame(blocks, address, size);
      SettledStart(blocks, address, perms);
      ghost var b0, h0, easy := blocks, host, AllEasy(blocks, address, size) && Ample();
      var addr, count := address, 0;
      removeExec := false;
      ProtectingStart(blocks, host, address, perms);
      NthStep(address, 0, 0);
      while count < size
        invariant 0 <= count <= size && addr == Nth(address, count) && addr % pageSize == 0 && count % pageSize == 0
        invariant Valid() && attempts >= old(attempts) && UserKept(b0, h0, blocks, host) && Stored(b0, h0)
        invariant count < size ==> Protecting(b0, h0, blocks, host, address, count, perms) && Frontier(b0, blocks, address, count)
        invariant count == size ==> Protected(b0, h0, blocks, host, address, size, perms)
        invariant count == 0 ==> blocks == b0 && host == h0
        invariant Entered(b0, address) ==> count == 0
        invariant SharingKept(b0, blocks, address, size, count) && KeepsAway(b0, blocks, address, size)
        invariant if count < size then Settled(blocks, address, count, perms) else AllSealed(blocks, address, size, perms)
        invariant removeExec <==> ExecutableIn(b0, h0, address, count) && !Executable(perms)
        invariant easy && count < size ==> AllEasy(blocks, address, size) && Ample()
        decreases size - count
      {
        ProtectingMapped(b0, h0, blocks, host, address, size, count, perms);
        var found := MemoryMapping(addr);
        var mr := blocks[found.value];
        RegionFacts(blocks, host, found.value);
        var len := ChunkLength(size - count, mr, addr);
        ChunkAligned(mr, addr, len, size, count, pageSize);
        if easy { EasyChunk(b0, blocks, mr, address, size, count, len); }
        if Entered(b0, address) { EnteredChunk(blocks, found.value, address, len); }
        ghost var b, h := blocks, host;
        ExecutableStep(b0, h0, b, h, found.value, address, count, len, perms);
        var removes;
        ok, removes := ProtectStep(mr, addr, len, perms);
        UserKeptTrans(b0, h0, b, h, blocks, host);
        if !ok { return; }
        if removes { removeExec := true; }
        ProtectingStep(b0, h0, b, h, blocks, host, mr, address, size, count, len, perms);
        SharingFewer(b, blocks, mr, Loses(b, mr, addr, len));
        SettledStep(b, blocks, mr, address, size, count, len, perms);
        SharingStep(b0, b, blocks, found.value, address, size, count, addr, len);
        InsideRange(address, size, count);
        KeepsAwayStep(b0, b, blocks, mr, address, size, addr);
        if easy { EasyStep(b, blocks, mr, address, size, Covered(mr, addr, len)); }
        NthStep(address, count, len);
        count := count + len;
        addr := Wrap(addr + len);
      }
      ok := true;
    }

    /** uc_mem_protect; `pc` is where the emulation stands. */
    method MemProtect(address: nat, size: nat, perms: nat, pc: nat) returns (err: Error)
      requires Valid() && address < WORD && size < WORD
      modifies this`blocks, this`capacity, this`host, this`attempts, this`quitRequest
      ensures Valid() && UserKept(old(blocks), old(host), blocks, host)
      ensures size == 0 ==> err == OK && blocks == old(blocks) && host == old(host)
      ensures err == ARG <==> size > 0 && (address % pageSize != 0 || size % pageSize != 0 || perms >= 8)
      ensures err == ARG ==> blocks == old(blocks) && host == old(host)
      ensures err != ARG && !AllMapped(old(blocks), address, size) ==> err == NOMEM && blocks == old(blocks) && host == old(host)
      ensures err in {OK, ARG, NOMEM}
      ensures err == OK && size > 0 ==> Protected(old(blocks), old(host), blocks, host, address, size, perms)
      ensures err == OK ==> quitRequest == (old(quitRequest) || (size > 0 && ExecutableIn(old(blocks), old(host), address, size) &&
                              !Executable(perms) && address <= pc < Wrap(address + size)))
      ensures err != OK ==> quitRequest == old(quitRequest)
      ensures err == OK ==> SharesNoMore(old(blocks), blocks)
      ensures err == OK && size > 0 ==> SharingWithin(old(blocks), blocks, address, size)
      ensures err == OK && pageSize % hostPage == 0 ==> SharesSame(old(blocks), blocks)
      ensures err == OK ==> AllSealed(blocks, address, size, perms) && KeepsAway(old(blocks), blocks, address, size)
      ensures err != ARG && AllMapped(old(blocks), address, size) && old(AllEasy(blocks, address, size)) && old(Ample()) ==> err == OK
      ensures err != ARG && size > 0 && Entered(old(blocks), address) ==> err == NOMEM && blocks == old(blocks) && host == old(host)
      ensures err != ARG && size > 0 && AllMapped(old(blocks), address, size) && old(NoneHuge(blocks)) && old(Ample()) ==>
                (err == OK <==> !Entered(old(blocks), address))
    {
      hide Sorted, Stored, UserKept, Protected, AllMapped, AllEasy, Roomy, Executable, ExecutableIn, Entered, NoneHuge,
           SharesNoMore, SharesSame, SharingWithin, AllSealed, KeepsAway;
      UserKeptSame(blocks, host);
      SharedSame(blocks);
      KeepsAwaySame(blocks, address, size);
      NoneSealed(blocks, address, perms);
      NothingMapped(blocks, address);
      NotEnteredEasy(blocks, address, size);
      if size == 0 { return OK; }
      if address % pageSize != 0 { return ARG; }
      if size % pageSize != 0 { return ARG; }
      if perms >= 8 { return ARG; }
      var mapped := CheckMemArea(address, size);
      if !mapped { return NOMEM; }
      var ok, removeExec := ProtectRange(address, size, perms);
      if !ok { return NOMEM; }
      if removeExec {
        if pc < Wrap(address + size) && pc >= address {
          quitRequest := true;
        }
      }
      return OK;
    }
  }

  /** Two pages at the top of memory are one region, and nothing else is mapped. */
  lemma TopPages(m: Memory)
    requires m.Valid() && m.pageSize == 0x1000 && Grown([], map[], m.blocks, m.host, WORD - 0x2000, 0x2000)
    ensures AllMapped(m.blocks, WORD - 0x2000, 0x1000) && m.AllEasy(m.blocks, WORD - 0x2000, 0x1000)
    ensures View(m.blocks, m.host, WORD - 1).Some? && Cut(m.blocks, WORD - 1, WORD - 0x2000, 0x1000)
  {
    hide Stored;
    var b := m.blocks;
    var i: nat :| i < |b| && b[i].addr == WORD - 0x2000 && b[i].size == 0x2000;
    forall j | 0 <= j < |b| ensures m.Easy(b[j], WORD - 0x2000, 0x1000) {
      assert !HasRegion([], b[j].addr, b[j].size);
      HitUnique(b, i, j, b[j].addr);
    }
    var address: nat := WORD - 0x2000;
    forall k | 0 <= k < 0x1000 ensures Mapped(b, Nth(address, k)) {
      assert Hits(b, i, Nth(address, k));
    }
    CutTop(b, m.host, i, WORD - 0x2000, 0x1000);
  }

  /** Unmapping the first of two pages at the top of memory succeeds and loses the second
      one too: its last byte can be read before and not after. */
  method TopPageLost() returns (mapped: Error, before: Error, unmapped: Error, after: Error)
    ensures mapped == OK && before == OK && unmapped == OK && after == READ_UNMAPPED
    ensures !InRange(WORD - 1, WORD - 0x2000, 0x1000)
  {
    hide Sorted, Stored, View, Grown, HasFresh, Mapped, AllMapped, Cut;
    var m := new Memory(0x1000, 0x1000, _ => false, 0);
    NoneMapped();
    mapped := m.UcMemMap(WORD - 0x2000, 0x2000, 7);
    TopPages(m);
    ghost var b, h := m.blocks, m.host;
    LastByte(b, h);
    var bytes;
    before, bytes := m.MemRead(WORD - 1, 1);
    unmapped := m.MemUnmap(WORD - 0x2000, 0x1000);
    assert View(m.blocks, m.host, WORD - 1) == None;
    LastByte(m.blocks, m.host);
    after, bytes := m.MemRead(WORD - 1, 1);
  }

  /** Protecting the first of the two pages succeeds and protects the second one too. */
  method TopPageProtected() returns (mapped: Error, protected: Error, perms: nat)
    ensures mapped == OK && protected == OK && perms == 1
    ensures !InRange(WORD - 1, WORD - 0x2000, 0x1000)
  {
    hide Sorted, Stored, View, Grown, HasFresh, Mapped, AllMapped, Cut;
    var m := new Memory(0x1000, 0x1000, _ => false, 0);
    NoneMapped();
    mapped := m.UcMemMap(WORD - 0x2000, 0x2000, 7);
    TopPages(m);
    protected := m.MemProtect(WORD - 0x2000, 0x1000, 1, 0);
    assert View(m.blocks, m.host, WORD - 1).Some?;
    ViewOut(m.blocks, m.host, WORD - 1);
    var i := m.MemoryMapping(WORD - 1);
    ViewIn(m.blocks, m.host, i.value, WORD - 1);
    perms := m.blocks[i.value].perms;
  }

  /** Target pages of 1 KiB and host pages of 4 KiB: behind a region of the engine, memory of
      the caller is mapped. Protecting its first page leaves no address that shows it. */
  method SharingLost(buffer: seq<Byte>) returns (mapped: Error, given: Error, before: bool, protected: Error, after: bool)
    requires |buffer| == 0x800
    ensures mapped == OK && given == OK && before && protected == OK && !after
  {
    hide Sorted, Stored, View, Grown, Mapped, HasFresh, PieceOf, Keeps, NotOwned, AllMapped, Protected, Sharing, SharesNoMore, SharesSame;
    var m := new Memory(0x400, 0x1000, _ => false, 0);
    m.host := map[0 := buffer];
    NoneMapped();
    NoneOwned(m.host, 0);
    mapped := m.UcMemMap(0, 0x400, 7);
    KeptHost([], map[0 := buffer], m.blocks, m.host, 0, 0x400, 0);
    ghost var b, h := m.blocks, m.host;
    OnlyMapped(map[0 := buffer], b, h, 0, 0x400);
    given := m.UcMemMapPtr(0x400, 0x800, 7, Some((0, 0)));
    KeepsPiece(b, m.blocks, 0, 0x400, 7, None);
    ghost var b0 := m.blocks;
    PieceFound(b0, 0x400, 0x800, 7, Some((0, 0)), -1);
    var found := m.MemoryMapping(0x400);
    PieceFound(b0, 0x400, 0x800, 7, Some((0, 0)), found.value);
    before := m.blocks[found.value].prealloc;
    OverlaidThere(m, m.blocks[found.value]);
    AllSmall(m, map[0 := buffer], b, h);
    protected := m.MemProtect(0x400, 0x400, 1, 0);
    assert m.Encloses(b0[found.value], 0x400, 0x400);
    assert Sharing(b0, m.blocks, b0[found.value], true);
    var left := m.MemoryMapping(0x400);
    var right := m.MemoryMapping(0x800);
    after := (left.Some? && m.blocks[left.value].prealloc) || (right.Some? && m.blocks[right.value].prealloc);
    if left.Some? { NotShared(b0, m.blocks, b0[found.value], left.value, 0x400); }
    if right.Some? { NotShared(b0, m.blocks, b0[found.value], right.value, 0x800); }
  }

  /** Both regions are small, lie at the bottom of memory, and the second one is mapped. */
  lemma AllSmall(m: Memory, h0: Host, b: seq<Region>, h: Host)
    requires m.Valid() && m.hostPage == 0x1000 && PieceOf(m.blocks, 0x400, 0x800, 7, Some((0, 0)))
    requires Grown([], h0, b, h, 0, 0x400) && Grown(b, h, m.blocks, h, 0x400, 0x800)
    ensures m.NoneHuge(m.blocks) && !Entered(m.blocks, 0x400) && AllMapped(m.blocks, 0x400, 0x400)
  {
    hide Stored;
    forall i | 0 <= i < |m.blocks| ensures m.blocks[i].addr + m.blocks[i].size <= 0xC00 {
      if HasRegion(b, m.blocks[i].addr, m.blocks[i].size) {
        var j :| 0 <= j < |b| && b[j].addr == m.blocks[i].addr && b[j].size == m.blocks[i].size;
        assert !HasRegion([], b[j].addr, b[j].size);
      }
    }
    var i :| 0 <= i < |m.blocks| && m.blocks[i].addr == 0x400 && m.blocks[i].size == 0x800;
    var address := 0x400;
    forall k | 0 <= k < 0x400 ensures Mapped(m.blocks, Nth(address, k)) { assert Hits(m.blocks, i, Nth(address, k)); }
  }

  lemma OverlaidThere(m: Memory, mr: Region)
    requires m.hostPage == 0x1000 && Sorted(m.blocks) && PieceOf(m.blocks, 0, 0x400, 7, None)
    requires mr.addr == 0x400 && mr.size == 0x800
    ensures m.Overlaid(m.blocks, mr)
  {
    var b := m.blocks;
    var i :| 0 <= i < |b| && b[i].addr == 0 && b[i].size == 0x400 && Source(b[i]) == None;
    assert m.Large(b[i], mr);
  }
}
