/** Which guest addresses show memory of the caller, and what splitting, unmapping and
    protecting regions do to that. */
module MemorySharing {
  import opened MemoryEffects
  import opened MemoryView
  import opened Wrappers

  /** Address `a` shows byte `off` of the caller's memory `buf`. */
  ghost predicate SharedAt(b: seq<Region>, a: nat, buf: nat, off: nat) {
    exists i :: Hits(b, i, a) && b[i].prealloc && b[i].buf == buf && b[i].off + (a - b[i].addr) == off
  }

  /** No address is mapped that was not. */
  ghost predicate Fewer(b0: seq<Region>, b1: seq<Region>) {
    forall a: nat :: Mapped(b1, a) ==> Mapped(b0, a)
  }

  /** Exactly the addresses still mapped are shared as before, except those of a region that
      lost its sharing. */
  ghost predicate Sharing(b0: seq<Region>, b1: seq<Region>, mr: Region, lost: bool) {
    && Fewer(b0, b1)
    && forall a: nat, buf, off :: SharedAt(b1, a, buf, off) <==> Mapped(b1, a) && SharedAt(b0, a, buf, off) && !(lost && Holds(mr, a))
  }

  /** No address shares memory that it did not share before. */
  ghost predicate SharesNoMore(b0: seq<Region>, b1: seq<Region>) {
    && Fewer(b0, b1)
    && forall a: nat, buf, off :: SharedAt(b1, a, buf, off) ==> SharedAt(b0, a, buf, off)
  }

  /** The addresses still mapped are shared as before. */
  ghost predicate SharesSame(b0: seq<Region>, b1: seq<Region>) {
    && Fewer(b0, b1)
    && forall a: nat, buf, off :: SharedAt(b1, a, buf, off) <==> Mapped(b1, a) && SharedAt(b0, a, buf, off)
  }

  /** What a region says about the addresses in it. */
  lemma RegionShared(b: seq<Region>, r: Region, a: nat)
    requires Sorted(b) && r in b && Holds(r, a)
    ensures Mapped(b, a)
    ensures forall buf, off :: SharedAt(b, a, buf, off) <==> r.prealloc && r.buf == buf && r.off + (a - r.addr) == off
  {
    var i :| 0 <= i < |b| && b[i] == r;
    assert Hits(b, i, a);
    forall buf, off | SharedAt(b, a, buf, off) ensures r.prealloc && r.buf == buf && r.off + (a - r.addr) == off {
      var j :| Hits(b, j, a) && b[j].prealloc && b[j].buf == buf && b[j].off + (a - b[j].addr) == off;
      HitUnique(b, i, j, a);
    }
  }

  /** What a piece says about the addresses in it. */
  lemma PieceShared(b: seq<Region>, addr: nat, size: nat, perms: nat, source: Option<(nat, nat)>, a: nat)
    requires Sorted(b) && PieceOf(b, addr, size, perms, source) && addr <= a < addr + size
    ensures Mapped(b, a)
    ensures forall buf, off :: SharedAt(b, a, buf, off) <==> source.Some? && source.value.0 == buf && source.value.1 + (a - addr) == off
  {
    var r :| r in b && IsPiece(r, addr, size, perms, source);
    hide SharedAt, Sorted;
    RegionShared(b, r, a);
  }

  lemma ErasedFewer(b0: seq<Region>, h0: Host, b1: seq<Region>, h1: Host, lo: nat, hi: nat)
    requires Erased(b0, h0, b1, h1, lo, hi)
    ensures Fewer(b0, b1) && forall a: nat :: lo <= a < hi ==> !Mapped(b1, a)
  {
    hide View, Stored, Mapped;
    forall a: nat ensures (Mapped(b1, a) ==> Mapped(b0, a)) && (lo <= a < hi ==> !Mapped(b1, a)) {
      ViewOut(b0, h0, a);
      ViewOut(b1, h1, a);
    }
  }

  /** An address outside the region that changed is shared as before. */
  lemma OutsideShared(b0: seq<Region>, b1: seq<Region>, mr: Region, a: nat)
    requires Sorted(b0) && Sorted(b1) && mr in b0 && KeepsOutside(b0, b1, mr.addr, mr.addr + mr.size)
    requires Mapped(b0, a) && !Holds(mr, a)
    ensures forall buf, off :: SharedAt(b1, a, buf, off) <==> SharedAt(b0, a, buf, off)
  {
    var i :| Hits(b0, i, a);
    var j :| 0 <= j < |b0| && b0[j] == mr;
    assert b0[i].addr + b0[i].size <= mr.addr || mr.addr + mr.size <= b0[i].addr;
    hide SharedAt, Sorted;
    RegionShared(b0, b0[i], a);
    RegionShared(b1, b0[i], a);
  }

  /** A region that is gone takes nothing else with it. */
  lemma GoneSharing(b0: seq<Region>, h0: Host, b1: seq<Region>, h1: Host, mr: Region)
    requires Sorted(b0) && Sorted(b1) && mr in b0 && KeepsOutside(b0, b1, mr.addr, mr.addr + mr.size)
    requires Erased(b0, h0, b1, h1, mr.addr, mr.addr + mr.size)
    ensures Sharing(b0, b1, mr, false)
  {
    hide Sorted, KeepsOutside, SharedAt, Mapped;
    ErasedFewer(b0, h0, b1, h1, mr.addr, mr.addr + mr.size);
    hide Erased;
    forall a: nat, buf, off ensures SharedAt(b1, a, buf, off) <==> Mapped(b1, a) && SharedAt(b0, a, buf, off) {
      SharedMapped(b1, a, buf, off);
      if Mapped(b1, a) { OutsideShared(b0, b1, mr, a); }
    }
  }

  lemma SharedMapped(b: seq<Region>, a: nat, buf: nat, off: nat)
    ensures SharedAt(b, a, buf, off) ==> Mapped(b, a)
  {}

  /** The address of a kept piece of a split region. */
  lemma InsideShared(b0: seq<Region>, b1: seq<Region>, mr: Region, address: nat, size: nat, doDelete: bool, shared: bool, a: nat)
    requires Sorted(b0) && Sorted(b1) && mr in b0 && mr.addr <= address && address + size <= mr.addr + mr.size
    requires PiecesFrom(b1, mr, address, size, doDelete, shared) && (shared ==> mr.prealloc)
    requires Holds(mr, a) && (doDelete ==> !(address <= a < address + size))
    ensures forall buf, off :: SharedAt(b1, a, buf, off) <==> shared && SharedAt(b0, a, buf, off)
  {
    hide PieceOf, SharedAt, Sorted;
    RegionShared(b0, mr, a);
    if a < address {
      PieceShared(b1, mr.addr, address - mr.addr, mr.perms, PartSource(mr, 0, shared), a);
    } else if a < address + size {
      PieceShared(b1, address, size, mr.perms, PartSource(mr, address - mr.addr, shared), a);
    } else {
      PieceShared(b1, address + size, mr.addr + mr.size - (address + size), mr.perms, PartSource(mr, address - mr.addr + size, shared), a);
    }
  }

  /** A split region keeps sharing if its pieces do, and no other region is affected. */
  lemma SplitSharing(b0: seq<Region>, h0: Host, b1: seq<Region>, h1: Host, mr: Region, address: nat, size: nat, doDelete: bool, overlaid: bool)
    requires Sorted(b0) && Sorted(b1) && mr in b0 && mr.addr <= address && address + size <= mr.addr + mr.size
    requires SplitDone(b0, h0, b1, h1, mr, address, size, doDelete) && KeepsOutside(b0, b1, mr.addr, mr.addr + mr.size)
    requires PiecesFrom(b1, mr, address, size, doDelete, mr.prealloc && !overlaid)
    ensures Sharing(b0, b1, mr, overlaid)
  {
    hide Sorted, KeepsOutside, PiecesFrom, SharedAt, Mapped;
    ErasedFewer(b0, h0, b1, h1, if doDelete then address else 0, if doDelete then address + size else 0);
    hide SplitDone;
    forall a: nat, buf, off ensures SharedAt(b1, a, buf, off) <==> Mapped(b1, a) && SharedAt(b0, a, buf, off) && !(overlaid && Holds(mr, a)) {
      SharedMapped(b1, a, buf, off);
      if Mapped(b1, a) {
        if Holds(mr, a) {
          InsideShared(b0, b1, mr, address, size, doDelete, mr.prealloc && !overlaid, a);
          OwnShared(b0, mr, a, buf, off);
        } else {
          OutsideShared(b0, b1, mr, a);
        }
      }
    }
  }

  lemma OwnShared(b: seq<Region>, mr: Region, a: nat, buf: nat, off: nat)
    requires Sorted(b) && mr in b && Holds(mr, a)
    ensures SharedAt(b, a, buf, off) ==> mr.prealloc
  {
    if SharedAt(b, a, buf, off) {
      var i :| Hits(b, i, a) && b[i].prealloc && b[i].buf == buf && b[i].off + (a - b[i].addr) == off;
      var j :| 0 <= j < |b| && b[j] == mr;
      assert Hits(b, j, a);
      HitUnique(b, i, j, a);
    }
  }

  /** Permissions do not matter. */
  lemma FlagSharing(b0: seq<Region>, b: seq<Region>, mr: Region, lost: bool, i: nat, perms: nat, readonly: bool)
    requires Sharing(b0, b, mr, lost) && i < |b|
    ensures Sharing(b0, Flagged(b, i, perms, readonly), mr, lost)
  {
    hide SharedAt, Mapped;
    var after := Flagged(b, i, perms, readonly);
    forall a: nat ensures Mapped(after, a) <==> Mapped(b, a) { FlagMapped(b, i, perms, readonly, a); }
    forall a: nat, buf, off ensures SharedAt(after, a, buf, off) <==> SharedAt(b, a, buf, off) {
      FlagShared(b, i, perms, readonly, a, buf, off);
    }
  }

  lemma FlagShared(b: seq<Region>, i: nat, perms: nat, readonly: bool, a: nat, buf: nat, off: nat)
    requires i < |b|
    ensures SharedAt(Flagged(b, i, perms, readonly), a, buf, off) <==> SharedAt(b, a, buf, off)
  {
    var after := Flagged(b, i, perms, readonly);
    if SharedAt(b, a, buf, off) {
      var j :| Hits(b, j, a) && b[j].prealloc && b[j].buf == buf && b[j].off + (a - b[j].addr) == off;
      assert Hits(after, j, a);
    }
    if SharedAt(after, a, buf, off) {
      var j :| Hits(after, j, a) && after[j].prealloc && after[j].buf == buf && after[j].off + (a - after[j].addr) == off;
      assert Hits(b, j, a);
    }
  }

  lemma SharingFewer(b0: seq<Region>, b1: seq<Region>, mr: Region, lost: bool)
    requires Sharing(b0, b1, mr, lost)
    ensures forall a: nat :: Mapped(b1, a) ==> Mapped(b0, a)
  {}

  lemma SharedSame(b: seq<Region>)
    ensures SharesNoMore(b, b) && SharesSame(b, b)
  {
    hide SharedAt, Mapped;
    forall a: nat, buf, off ensures SharedAt(b, a, buf, off) ==> Mapped(b, a) { SharedMapped(b, a, buf, off); }
  }

  lemma SharingSame(b: seq<Region>, mr: Region)
    ensures Sharing(b, b, mr, false)
  {
    hide SharedAt, Mapped;
    forall a: nat, buf, off ensures SharedAt(b, a, buf, off) ==> Mapped(b, a) { SharedMapped(b, a, buf, off); }
  }

  /** The regions of what lost its sharing are in memory of the engine. */
  lemma NotShared(b0: seq<Region>, b1: seq<Region>, mr: Region, j: nat, a: nat)
    requires Sharing(b0, b1, mr, true) && Holds(mr, a) && Hits(b1, j, a)
    ensures !b1[j].prealloc
  {
    if b1[j].prealloc { assert SharedAt(b1, a, b1[j].buf, b1[j].off + (a - b1[j].addr)); }
  }

  /** Memory of the engine has no sharing to lose. */
  lemma NothingToLose(b0: seq<Region>, b1: seq<Region>, mr: Region, lost: bool)
    requires Sorted(b0) && mr in b0 && Sharing(b0, b1, mr, lost) && (lost ==> !mr.prealloc)
    ensures SharesSame(b0, b1)
  {
    hide SharedAt, Mapped, Sorted;
    forall a: nat, buf, off ensures SharedAt(b1, a, buf, off) <==> Mapped(b1, a) && SharedAt(b0, a, buf, off) {
      if lost && Holds(mr, a) { OwnShared(b0, mr, a, buf, off); }
    }
  }

  lemma SharesStep(b0: seq<Region>, b: seq<Region>, b1: seq<Region>, mr: Region, lost: bool)
    requires SharesNoMore(b0, b) && Sharing(b, b1, mr, lost)
    ensures SharesNoMore(b0, b1)
  {
    hide SharedAt, Mapped;
  }

  lemma SharesSameTrans(b0: seq<Region>, b: seq<Region>, b1: seq<Region>)
    requires SharesSame(b0, b) && SharesSame(b, b1)
    ensures SharesSame(b0, b1)
  {
    hide SharedAt, Mapped;
  }
}
