/** The RAM block list of qemu/exec.c: where a block is placed in the ram_addr_t space, the
    order of the list, and the lookup with its most recently used shortcut. */
module RamBlocks {
  import opened Arithmetic
  import opened Words
  import opened Wrappers

  const RAM_ADDR_MAX: nat := 0xFFFF_FFFF_FFFF_FFFF

  datatype Block = Block(offset: nat, maxLength: nat)

  predicate Holds(b: Block, addr: nat) { b.offset <= addr < b.offset + b.maxLength }

  /** The test `addr - block->offset < block->max_length` in 64-bit arithmetic. */
  predicate Hit(b: Block, addr: nat) {
    (if addr >= b.offset then addr - b.offset else addr + WORD - b.offset) < b.maxLength
  }

  function RoundUp(x: nat, align: nat): nat
    requires align > 0
  {
    (x + align - 1) / align * align
  }

  /** Where the space behind a block starts, rounded up; at the top it wraps to zero. */
  function Candidate(b: Block, align: nat): nat
    requires align > 0
  {
    RoundUp(b.offset + b.maxLength, align) % WORD
  }

  /** The closest block offset that is not below `from`. */
  function Next(blocks: seq<Block>, from: nat): (next: nat)
    ensures next <= RAM_ADDR_MAX
    ensures forall i :: 0 <= i < |blocks| && blocks[i].offset >= from ==> next <= blocks[i].offset
    ensures next == RAM_ADDR_MAX || exists i :: 0 <= i < |blocks| && blocks[i].offset == next >= from
  {
    if blocks == [] then RAM_ADDR_MAX
    else
      var last := blocks[|blocks| - 1].offset;
      var rest := Next(blocks[..|blocks| - 1], from);
      if last >= from && last < rest then last else rest
  }

  /** The free space behind a block. */
  function Gap(blocks: seq<Block>, b: Block, align: nat): int
    requires align > 0
  {
    Next(blocks, Candidate(b, align)) - Candidate(b, align)
  }

  ghost predicate Disjoint(blocks: seq<Block>) {
    forall i, j :: 0 <= i < j < |blocks| ==>
      blocks[i].offset + blocks[i].maxLength <= blocks[j].offset || blocks[j].offset + blocks[j].maxLength <= blocks[i].offset
  }

  ghost predicate Placed(blocks: seq<Block>, align: nat)
    requires align > 0
  {
    && (forall i :: 0 <= i < |blocks| ==>
          blocks[i].maxLength > 0 && blocks[i].offset + blocks[i].maxLength <= RAM_ADDR_MAX && blocks[i].offset % align == 0)
    && Disjoint(blocks)
  }

  /** From biggest to smallest. */
  ghost predicate Ordered(blocks: seq<Block>) {
    forall i, j :: 0 <= i < j < |blocks| ==> blocks[i].maxLength >= blocks[j].maxLength
  }

  /** Block `k` has the smallest gap that is large enough, and is the first one with it. */
  ghost predicate BestFit(blocks: seq<Block>, k: nat, size: nat, align: nat)
    requires align > 0 && k < |blocks|
  {
    && Gap(blocks, blocks[k], align) >= size
    && (forall i :: 0 <= i < |blocks| && Gap(blocks, blocks[i], align) >= size ==>
          Gap(blocks, blocks[k], align) <= Gap(blocks, blocks[i], align))
    && (forall i :: 0 <= i < k && Gap(blocks, blocks[i], align) >= size ==>
          Gap(blocks, blocks[k], align) < Gap(blocks, blocks[i], align))
  }

  /** An aligned address less than one alignment behind the end of the block. */
  ghost predicate Behind(b: Block, c: nat, align: nat)
    requires align > 0
  {
    c % align == 0 && b.offset + b.maxLength <= c < b.offset + b.maxLength + align
  }

  /** The space from `c` on meets no block. */
  ghost predicate FreeAt(blocks: seq<Block>, c: nat, size: nat) {
    && c + size <= RAM_ADDR_MAX
    && forall i :: 0 <= i < |blocks| ==> c + size <= blocks[i].offset || blocks[i].offset + blocks[i].maxLength <= c
  }

  /** Free bytes from `c` to the next block. */
  function Room(blocks: seq<Block>, c: nat): int { Next(blocks, c) - c }

  /** There is free space of this size behind no block. */
  ghost predicate NoPlace(blocks: seq<Block>, size: nat, align: nat)
    requires align > 0
  {
    forall k, c: nat :: 0 <= k < |blocks| && Behind(blocks[k], c, align) ==> !FreeAt(blocks, c, size)
  }

  /** The space is free and aligned, starts behind a block or at zero when a block leaves no
      room below the top, and no larger than the free space behind any other block. */
  ghost predicate WellPlaced(blocks: seq<Block>, c: nat, size: nat, align: nat)
    requires align > 0
  {
    && FreeAt(blocks, c, size) && c % align == 0
    && (exists k :: 0 <= k < |blocks| && if c == 0 then blocks[k].offset + blocks[k].maxLength + align > WORD else Behind(blocks[k], c, align))
    && forall k, c': nat :: 0 <= k < |blocks| && Behind(blocks[k], c', align) && FreeAt(blocks, c', size) ==>
         Room(blocks, c) <= Room(blocks, c')
  }

  lemma RoundUpLeast(x: nat, y: nat, align: nat)
    requires align > 0 && x <= y && y % align == 0
    ensures x <= RoundUp(x, align) <= y && RoundUp(x, align) % align == 0
  {
    var q, p := (x + align - 1) / align, y / align;
    assert RoundUp(x, align) == q * align;
    hide RoundUp;
    DivModEq(x + align - 1, align);
    DivModEq(y, align);
    DivModUnique(q * align, q, 0, align);
    Distribute(p, 1, align);
    if q <= p { MulOrder(q, p, align); } else { MulOrder(p + 1, q, align); }
  }

  /** The candidate is an aligned address, and everything from its block's end to it is
      behind no other block's start. */
  lemma CandidateFacts(b: Block, x: Block, align: nat)
    requires 64 <= align && WORD % align == 0 && b.maxLength > 0 && b.offset + b.maxLength <= RAM_ADDR_MAX
    requires x.offset % align == 0 && x.offset < WORD
    ensures var c := Candidate(b, align);
            && c < RAM_ADDR_MAX && c % align == 0
            && (c == 0 || b.offset + b.maxLength <= c)
            && (b.offset + b.maxLength <= x.offset ==> c <= x.offset)
  {
    var end := b.offset + b.maxLength;
    RoundUpLeast(end, WORD, align);
    if end <= x.offset { RoundUpLeast(end, x.offset, align); }
    if RoundUp(end, align) == WORD {
      ZeroMultiple(align);
    } else {
      BelowTop(RoundUp(end, align), align);
    }
  }

  /** The candidate is the address behind the block, unless that is past the top. */
  lemma CandidateBehind(b: Block, align: nat)
    requires 64 <= align && WORD % align == 0 && b.maxLength > 0 && b.offset + b.maxLength <= RAM_ADDR_MAX
    ensures var c := Candidate(b, align); if c == 0 then b.offset + b.maxLength + align > WORD else Behind(b, c, align)
    ensures forall c: nat :: Behind(b, c, align) && c < WORD ==> c == Candidate(b, align)
  {
    var end := b.offset + b.maxLength;
    RoundUpLeast(end, WORD, align);
    var up := RoundUp(end, align);
    DivModEq(end + align - 1, align);
    assert up < end + align;
    hide RoundUp;
    if up < WORD { BelowTop(up, align); }
    forall c: nat | Behind(b, c, align) && c < WORD ensures c == Candidate(b, align) {
      RoundUpLeast(end, c, align);
      if up < c { MultiplesApart(up, c, align); }
    }
  }

  /** Free space behind a block is a gap that is large enough, and the other way round. */
  lemma FreeIsGap(blocks: seq<Block>, k: nat, size: nat, align: nat)
    requires 64 <= align && WORD % align == 0 && Placed(blocks, align) && k < |blocks| && size > 0
    ensures FreeAt(blocks, Candidate(blocks[k], align), size) <==> Gap(blocks, blocks[k], align) >= size
    ensures Room(blocks, Candidate(blocks[k], align)) == Gap(blocks, blocks[k], align)
  {
    if Gap(blocks, blocks[k], align) >= size {
      forall i | 0 <= i < |blocks| ensures
          Candidate(blocks[k], align) + size <= blocks[i].offset || blocks[i].offset + blocks[i].maxLength <= Candidate(blocks[k], align) {
        GapIsFree(blocks, k, size, align, i);
      }
      GapIsFree(blocks, k, size, align, k);
    }
  }

  /** What the search found, said without it. */
  lemma BestIsWell(blocks: seq<Block>, k: nat, size: nat, align: nat)
    requires 64 <= align && WORD % align == 0 && Placed(blocks, align) && k < |blocks| && size > 0 && BestFit(blocks, k, size, align)
    ensures WellPlaced(blocks, Candidate(blocks[k], align), size, align)
  {
    hide Candidate, Gap, Next, Disjoint, Room;
    var c := Candidate(blocks[k], align);
    CandidateFacts(blocks[k], blocks[k], align);
    CandidateBehind(blocks[k], align);
    FreeIsGap(blocks, k, size, align);
    forall i, c': nat | 0 <= i < |blocks| && Behind(blocks[i], c', align) && FreeAt(blocks, c', size)
      ensures Room(blocks, c) <= Room(blocks, c') {
      CandidateBehind(blocks[i], align);
      FreeIsGap(blocks, i, size, align);
    }
  }

  lemma NoGapNoPlace(blocks: seq<Block>, size: nat, align: nat)
    requires 64 <= align && WORD % align == 0 && Placed(blocks, align) && size > 0
    requires forall i :: 0 <= i < |blocks| ==> Gap(blocks, blocks[i], align) < size
    ensures NoPlace(blocks, size, align)
  {
    hide Candidate, Gap, Next, Disjoint, Room;
    forall k, c: nat | 0 <= k < |blocks| && Behind(blocks[k], c, align) ensures !FreeAt(blocks, c, size) {
      CandidateBehind(blocks[k], align);
      FreeIsGap(blocks, k, size, align);
    }
  }

  lemma ZeroMultiple(align: nat)
    requires align > 0
    ensures 0 % align == 0
  {
    DivModUnique(0, 0, 0, align);
  }

  lemma MultiplesApart(c: nat, w: nat, align: nat)
    requires align > 0 && c < w && c % align == 0 && w % align == 0
    ensures c + align <= w
  {
    var p, q := c / align, w / align;
    DivModEq(c, align);
    DivModEq(w, align);
    Distribute(p, 1, align);
    if p < q { MulOrder(p + 1, q, align); } else { MulOrder(q, p, align); }
  }

  lemma BelowTop(c: nat, align: nat)
    requires 64 <= align && c < WORD && c % align == 0 && WORD % align == 0
    ensures c < RAM_ADDR_MAX && c % WORD == c
  {
    MultiplesApart(c, WORD, align);
  }

  lemma Apart(blocks: seq<Block>, i: nat, k: nat)
    requires Disjoint(blocks) && i < |blocks| && k < |blocks|
    ensures i == k || blocks[i].offset + blocks[i].maxLength <= blocks[k].offset ||
            blocks[k].offset + blocks[k].maxLength <= blocks[i].offset
  {}

  lemma GapFacts(blocks: seq<Block>, k: nat, align: nat)
    requires 64 <= align && WORD % align == 0 && Placed(blocks, align) && k < |blocks|
    ensures Gap(blocks, blocks[k], align) == Next(blocks, Candidate(blocks[k], align)) - Candidate(blocks[k], align)
    ensures Candidate(blocks[k], align) < RAM_ADDR_MAX && 0 <= Gap(blocks, blocks[k], align) < RAM_ADDR_MAX
  {
    hide Candidate, Disjoint;
    CandidateFacts(blocks[k], blocks[k], align);
  }

  /** The space found behind a block is aligned, fits, and meets no block. */
  lemma GapIsFree(blocks: seq<Block>, k: nat, size: nat, align: nat, i: nat)
    requires 64 <= align && WORD % align == 0 && Placed(blocks, align) && k < |blocks| && i < |blocks|
    requires Gap(blocks, blocks[k], align) >= size > 0
    ensures var c := Candidate(blocks[k], align);
            && c % align == 0 && c + size <= RAM_ADDR_MAX
            && (c + size <= blocks[i].offset || blocks[i].offset + blocks[i].maxLength <= c)
  {
    var c := Candidate(blocks[k], align);
    CandidateFacts(blocks[k], blocks[i], align);
    Apart(blocks, i, k);
  }

  class RamList {
    const align: nat
    var blocks: seq<Block>
    var mru: Option<Block>

    ghost predicate Valid()
      reads this
    {
      && 64 <= align && WORD % align == 0
      && Placed(blocks, align) && Ordered(blocks)
      && (mru.Some? ==> mru.value in blocks)
    }

    constructor (align: nat)
      requires 64 <= align && WORD % align == 0
      ensures Valid() && blocks == [] && this.align == align
    {
      this.align, blocks, mru := align, [], None;
    }

    /** find_ram_offset; None stands for the abort when no gap is large enough. */
    method FindRamOffset(size: nat) returns (r: Option<nat>)
      requires Valid() && 0 < size <= RAM_ADDR_MAX
      ensures blocks == [] ==> r == Some(0)
      ensures r.None? ==> blocks != [] && NoPlace(blocks, size, align)
      ensures blocks != [] && r.Some? ==> WellPlaced(blocks, r.value, size, align)
      ensures blocks != [] && r.None? ==> forall i :: 0 <= i < |blocks| ==> Gap(blocks, blocks[i], align) < size
      ensures blocks != [] && r.Some? ==>
                exists k: nat :: k < |blocks| && BestFit(blocks, k, size, align) && r.value == Candidate(blocks[k], align)
    {
      hide Candidate, Placed, Ordered, Gap, Next, BestFit, WellPlaced, NoPlace;
      var offset, mingap := RAM_ADDR_MAX, RAM_ADDR_MAX;
      if |blocks| == 0 { return Some(0); }
      ghost var best := 0;
      var i := 0;
      while i < |blocks|
        invariant i <= |blocks| && best < |blocks|
        invariant offset == RAM_ADDR_MAX ==> mingap == RAM_ADDR_MAX && forall j :: 0 <= j < i ==> Gap(blocks, blocks[j], align) < size
        invariant offset != RAM_ADDR_MAX ==> best < i && offset == Candidate(blocks[best], align)
        invariant offset != RAM_ADDR_MAX ==> mingap == Gap(blocks, blocks[best], align) >= size
        invariant offset != RAM_ADDR_MAX ==> forall j :: 0 <= j < i && Gap(blocks, blocks[j], align) >= size ==> mingap <= Gap(blocks, blocks[j], align)
        invariant offset != RAM_ADDR_MAX ==> forall j :: 0 <= j < best && Gap(blocks, blocks[j], align) >= size ==> mingap < Gap(blocks, blocks[j], align)
      {
        var candidate := Candidate(blocks[i], align);
        var next := Closest(candidate);
        GapFacts(blocks, i, align);
        if next - candidate >= size && next - candidate < mingap {
          offset := candidate;
          mingap := next - candidate;
          best := i;
        }
        i := i + 1;
      }
      if offset == RAM_ADDR_MAX {
        NoGapNoPlace(blocks, size, align);
        return None;
      }
      BestFitIntro(blocks, best, size, align);
      BestIsWell(blocks, best, size, align);
      return Some(offset);
    }

    /** The inner loop: the closest block that starts at or after the candidate. */
    method Closest(candidate: nat) returns (next: nat)
      ensures next == Next(blocks, candidate)
    {
      next := RAM_ADDR_MAX;
      var i := 0;
      assert blocks[..0] == [];
      while i < |blocks|
        invariant i <= |blocks| && next == Next(blocks[..i], candidate)
      {
        assert blocks[..i + 1][..i] == blocks[..i];
        if blocks[i].offset >= candidate {
          next := if next < blocks[i].offset then next else blocks[i].offset;
        }
        i := i + 1;
      }
      assert blocks[..i] == blocks;
    }

    /** ram_block_add; `hostOk` tells whether the host memory could be had. None is the abort
        of find_ram_offset. */
    method RamBlockAdd(maxLength: nat, hostOk: bool) returns (r: Option<bool>)
      requires Valid() && 0 < maxLength <= RAM_ADDR_MAX
      modifies this
      ensures Valid()
      ensures r.None? ==> blocks == old(blocks) && mru == old(mru) && blocks != [] && NoPlace(blocks, maxLength, align)
      ensures r == Some(false) ==> blocks == old(blocks) && mru == old(mru) && !hostOk
      ensures r == Some(true) ==> hostOk && mru == None
      ensures r == Some(true) ==>
                exists at: nat, offset: nat :: at <= |old(blocks)| &&
                  blocks == old(blocks)[..at] + [Block(offset, maxLength)] + old(blocks)[at..] &&
                  (if old(blocks) == [] then offset == 0 else WellPlaced(old(blocks), offset, maxLength, align)) &&
                  (forall j :: 0 <= j < at ==> old(blocks)[j].maxLength >= maxLength) && (at < |old(blocks)| ==> old(blocks)[at].maxLength < maxLength)
    {
      hide Candidate, Disjoint, RoundUp, Gap, BestFit, Placed, WellPlaced, NoPlace;
      var found := FindRamOffset(maxLength);
      if found.None? { return None; }
      var newBlock := Block(found.value, maxLength);
      if !hostOk { return Some(false); }
      var at := 0;
      while at < |blocks| && blocks[at].maxLength >= newBlock.maxLength
        invariant at <= |blocks| && forall j :: 0 <= j < at ==> blocks[j].maxLength >= newBlock.maxLength
      {
        at := at + 1;
      }
      NewBlockFits(blocks, newBlock, align);
      InsertPlaced(blocks, at, newBlock, align);
      blocks := blocks[..at] + [newBlock] + blocks[at..];
      mru := None;
      return Some(true);
    }

    /** qemu_get_ram_block; None is the abort on an address no block holds. */
    method GetRamBlock(addr: nat) returns (r: Option<Block>)
      requires Valid() && addr < WORD
      modifies this`mru
      ensures Valid() && mru == if r.Some? then r else old(mru)
      ensures r.Some? ==> r.value in blocks && Holds(r.value, addr)
      ensures r.Some? ==> forall b :: b in blocks && Holds(b, addr) ==> b == r.value
      ensures r.None? ==> forall b :: b in blocks ==> !Holds(b, addr)
    {
      HitHolds(blocks, align, addr);
      hide Hit, Holds, Placed, Ordered;
      if mru.Some? && Hit(mru.value, addr) { return mru; }
      var i := 0;
      while i < |blocks|
        invariant i <= |blocks| && forall j :: 0 <= j < i ==> !Hit(blocks[j], addr)
      {
        if Hit(blocks[i], addr) {
          mru := Some(blocks[i]);
          return Some(blocks[i]);
        }
        i := i + 1;
      }
      return None;
    }

    /** qemu_ram_free */
    method RamFree(i: nat)
      requires Valid() && i < |blocks|
      modifies this
      ensures Valid() && blocks == old(blocks)[..i] + old(blocks)[i + 1..] && mru == None
    {
      blocks := blocks[..i] + blocks[i + 1..];
      mru := None;
    }
  }

  lemma BestFitIntro(blocks: seq<Block>, k: nat, size: nat, align: nat)
    requires align > 0 && k < |blocks| && Gap(blocks, blocks[k], align) >= size
    requires forall i :: 0 <= i < |blocks| && Gap(blocks, blocks[i], align) >= size ==>
               Gap(blocks, blocks[k], align) <= Gap(blocks, blocks[i], align)
    requires forall i :: 0 <= i < k && Gap(blocks, blocks[i], align) >= size ==>
               Gap(blocks, blocks[k], align) < Gap(blocks, blocks[i], align)
    ensures BestFit(blocks, k, size, align)
  {
    hide Gap;
  }

  /** Among placed blocks the 64-bit test is membership, and at most one block passes. */
  lemma HitHolds(blocks: seq<Block>, align: nat, addr: nat)
    requires align > 0 && Placed(blocks, align) && addr < WORD
    ensures forall b :: b in blocks ==> (Hit(b, addr) <==> Holds(b, addr))
    ensures forall b, c :: b in blocks && c in blocks && Holds(b, addr) && Holds(c, addr) ==> b == c
  {
    forall b, c | b in blocks && c in blocks && Holds(b, addr) && Holds(c, addr) ensures b == c {
      var i :| 0 <= i < |blocks| && blocks[i] == b;
      var j :| 0 <= j < |blocks| && blocks[j] == c;
    }
  }

  lemma NewBlockFits(blocks: seq<Block>, b: Block, align: nat)
    requires 64 <= align && WORD % align == 0 && Placed(blocks, align) && 0 < b.maxLength <= RAM_ADDR_MAX
    requires blocks == [] ==> b.offset == 0
    requires blocks != [] ==>
               exists k: nat :: k < |blocks| && BestFit(blocks, k, b.maxLength, align) && b.offset == Candidate(blocks[k], align)
    ensures b.offset % align == 0 && b.offset + b.maxLength <= RAM_ADDR_MAX
    ensures forall i :: 0 <= i < |blocks| ==>
              b.offset + b.maxLength <= blocks[i].offset || blocks[i].offset + blocks[i].maxLength <= b.offset
  {
    if blocks == [] {
      ZeroMultiple(align);
    } else {
      var k: nat :| k < |blocks| && BestFit(blocks, k, b.maxLength, align) && b.offset == Candidate(blocks[k], align);
      GapIsFree(blocks, k, b.maxLength, align, k);
      forall i | 0 <= i < |blocks|
        ensures b.offset + b.maxLength <= blocks[i].offset || blocks[i].offset + blocks[i].maxLength <= b.offset {
        GapIsFree(blocks, k, b.maxLength, align, i);
      }
    }
  }

  lemma InsertPlaced(blocks: seq<Block>, at: nat, b: Block, align: nat)
    requires align > 0 && Placed(blocks, align) && Ordered(blocks) && at <= |blocks|
    requires b.maxLength > 0 && b.offset % align == 0 && b.offset + b.maxLength <= RAM_ADDR_MAX
    requires forall i :: 0 <= i < |blocks| ==>
               b.offset + b.maxLength <= blocks[i].offset || blocks[i].offset + blocks[i].maxLength <= b.offset
    requires forall j :: 0 <= j < at ==> blocks[j].maxLength >= b.maxLength
    requires at < |blocks| ==> blocks[at].maxLength < b.maxLength
    ensures Placed(blocks[..at] + [b] + blocks[at..], align) && Ordered(blocks[..at] + [b] + blocks[at..])
  {
    hide RoundUp;
    var after := blocks[..at] + [b] + blocks[at..];
    forall i | 0 <= i < |after| ensures after[i] == if i == at then b else blocks[if i < at then i else i - 1] {}
    InsertDisjoint(blocks, at, b);
    hide Disjoint;
  }

  lemma InsertDisjoint(blocks: seq<Block>, at: nat, b: Block)
    requires Disjoint(blocks) && at <= |blocks|
    requires forall i :: 0 <= i < |blocks| ==>
               b.offset + b.maxLength <= blocks[i].offset || blocks[i].offset + blocks[i].maxLength <= b.offset
    ensures Disjoint(blocks[..at] + [b] + blocks[at..])
  {
    var after := blocks[..at] + [b] + blocks[at..];
    forall i, j | 0 <= i < j < |after| ensures
        after[i].offset + after[i].maxLength <= after[j].offset || after[j].offset + after[j].maxLength <= after[i].offset {
      if i != at && j != at { Apart(blocks, if i < at then i else i - 1, if j < at then j else j - 1); }
    }
  }
}
