/** Reading and writing guest memory through the dispatch map: the chunk loops of
    flatview_write_continue and flatview_read_continue in qemu/exec.c. */
module FlatAccess {
  import opened Arithmetic
  import opened Dispatch
  import opened FlatMap
  import opened Words

  /** The host memory of every RAM region. */
  type Ram = map<nat, seq<Byte>>

  const UINT_RANGE: nat := 0x1_0000_0000

  /** The lowest set bit: addr & -addr. */
  function LowBit(n: nat): nat {
    if n == 0 then 0 else if n % 2 == 1 then 1 else 2 * LowBit(n / 2)
  }

  lemma {:induction false} LowBitDivides(n: nat) returns (j: nat)
    requires n > 0
    ensures LowBit(n) == Pow2(j) && n % Pow2(j) == 0
  {
    if n % 2 == 1 {
      j := 0;
    } else {
      var i := LowBitDivides(n / 2);
      j := i + 1;
      DivModEq(n / 2, Pow2(i));
      MulAssoc(2, n / 2 / Pow2(i), Pow2(i));
      MulAssoc(n / 2 / Pow2(i), 2, Pow2(i));
      DivModUnique(n, n / 2 / Pow2(i), 0, Pow2(j));
    }
  }

  /** pow2floor: the largest power of two that is at most `n`. */
  method Pow2Floor(n: nat) returns (r: nat, ghost i: nat)
    ensures n == 0 ==> r == 0
    ensures n > 0 ==> r == Pow2(i) && r <= n < 2 * r
  {
    if n == 0 { return 0, 0; }
    r, i := 1, 0;
    while 2 * r <= n
      invariant r == Pow2(i) && r <= n
      decreases n - r
    {
      r, i := 2 * r, i + 1;
    }
  }

  lemma PowerDivides(n: nat, i: nat, j: nat)
    requires i <= j && n % Pow2(j) == 0
    ensures n % Pow2(i) == 0
  {
    Pow2Add(j - i, i);
    hide Pow2;
    FactorDivides(n, Pow2(j - i), Pow2(i));
  }

  lemma FactorDivides(n: nat, d: nat, e: nat)
    requires d > 0 && e > 0 && d * e > 0 && n % (d * e) == 0
    ensures n % e == 0
  {
    var q := n / (d * e);
    DivModEq(n, d * e);
    MulAssoc(q, d, e);
    DivModUnique(n, q * d, 0, e);
  }

  lemma {:induction false} Pow2Order(i: nat, j: nat)
    requires Pow2(i) <= Pow2(j)
    ensures i <= j
  {
    if i > j { Pow2Mono(j + 1, i); }
  }

  /** No power of two that divides the address is above its lowest bit. */
  lemma {:induction false} LowBitLargest(n: nat, i: nat)
    requires n > 0 && n % Pow2(i) == 0
    ensures Pow2(i) <= LowBit(n)
  {
    if i > 0 {
      HalfDivides(n, Pow2(i - 1));
      LowBitLargest(n / 2, i - 1);
    } else {
      var j := LowBitDivides(n);
    }
  }

  lemma HalfDivides(n: nat, d: nat)
    requires d > 0 && n > 0 && n % (2 * d) == 0
    ensures n % 2 == 0 && n / 2 > 0 && n / 2 % d == 0
  {
    var q := n / (2 * d);
    DivModEq(n, 2 * d);
    assert n == 2 * (q * d);
    DivModUnique(n / 2, q, 0, d);
  }

  /** A lowest bit does not survive the truncation in part. */
  lemma LowBitTruncated(n: nat)
    ensures LowBit(n) % UINT_RANGE == 0 || LowBit(n) < UINT_RANGE
    ensures n == 0 ==> LowBit(n) == 0
  {
    if n > 0 {
      var j := LowBitDivides(n);
      assert Pow2(32) == UINT_RANGE by { PowersOfTwo(); }
      if j >= 32 {
        Pow2Add(j - 32, 32);
        DivModUnique(LowBit(n), Pow2(j - 32), 0, UINT_RANGE);
      } else {
        Pow2Mono(j + 1, 32);
      }
    }
  }

  lemma PowersOfTwo()
    ensures Pow2(32) == UINT_RANGE
  {
    assert Pow2(4) == 16;
    assert Pow2(8) == 256 by { Pow2Add(4, 4); }
    assert Pow2(16) == 65536 by { Pow2Add(8, 8); }
    Pow2Add(16, 16);
  }

  /** What every access obeys: the length, the limit of the region and the alignment. */
  ghost predicate Allowed(maxAccess: nat, unaligned: bool, l: nat, addr: nat, i: nat) {
    Pow2(i) <= l && Pow2(i) <= (if maxAccess == 0 then 4 else maxAccess) && (unaligned || addr % Pow2(i) == 0)
  }

  /** The largest power of two that is allowed. */
  ghost predicate Largest(maxAccess: nat, unaligned: bool, l: nat, addr: nat, r: nat) {
    && (l == 0 ==> r == 0)
    && (l > 0 ==> exists i: nat :: r == Pow2(i) && Allowed(maxAccess, unaligned, l, addr, i))
    && (l > 0 ==> forall i: nat :: Allowed(maxAccess, unaligned, l, addr, i) ==> Pow2(i) <= r)
  }

  /** memory_access_size: the largest power of two that is no more than was asked for and than
      the region allows, and divides the address unless the region takes any. */
  method MemoryAccessSize(maxAccess: nat, unaligned: bool, l: nat, addr: nat) returns (r: nat)
    requires l < UINT_RANGE && maxAccess < UINT_RANGE
    ensures Largest(maxAccess, unaligned, l, addr, r)
    ensures r <= l && (l > 0 ==> r >= 1)
  {
    hide LowBit, Pow2;
    LowBitTruncated(addr);
    var accessSizeMax := if maxAccess == 0 then 4 else maxAccess;
    if !unaligned {
      var alignSizeMax := LowBit(addr) % UINT_RANGE;
      if alignSizeMax != 0 && alignSizeMax < accessSizeMax {
        accessSizeMax := alignSizeMax;
      }
    }
    var size := if l > accessSizeMax then accessSizeMax else l;
    ghost var i;
    r, i := Pow2Floor(size);
    if l > 0 {
      if !unaligned { AccessAligned(addr, r, i, accessSizeMax); }
      assert Allowed(maxAccess, unaligned, l, addr, i);
      forall j: nat | Allowed(maxAccess, unaligned, l, addr, j) ensures Pow2(j) <= r {
        if !unaligned && addr > 0 { LowBitLargest(addr, j); }
        PowerBelow(j, i, size);
      }
    }
  }

  lemma PowerBelow(j: nat, i: nat, size: nat)
    requires Pow2(j) <= size < 2 * Pow2(i)
    ensures Pow2(j) <= Pow2(i)
  {
    if j <= i { Pow2Mono(j, i); } else { Pow2Mono(i + 1, j); }
  }

  lemma AccessAligned(addr: nat, r: nat, i: nat, limit: nat)
    requires r == Pow2(i) <= limit < UINT_RANGE
    requires LowBit(addr) % UINT_RANGE != 0 ==> limit <= LowBit(addr) % UINT_RANGE
    ensures addr % r == 0
  {
    hide LowBit, Pow2;
    if addr == 0 {
      DivModUnique(0, 0, 0, r);
    } else {
      var j := LowBitDivides(addr);
      Truncated(LowBit(addr), limit);
      Pow2Order(i, j);
      PowerDivides(addr, i, j);
    }
  }

  lemma Truncated(x: nat, limit: nat)
    requires x > 0 && limit < UINT_RANGE && (x % UINT_RANGE != 0 ==> limit <= x % UINT_RANGE)
    ensures limit <= x
  {}

  /** The k-th address from `addr` on, modulo 2^64. */
  function Nth(addr: nat, k: nat): (a: nat)
    ensures a < WORD
  {
    (addr + k) % WORD
  }

  lemma NthAhead(addr: nat, k: nat, i: nat)
    requires Nth(addr, k) + i < WORD
    ensures Nth(addr, k + i) == Nth(addr, k) + i
  {}

  /** Address `a` is backed by byte `o` of RAM region `id`. */
  ghost predicate Backs(added: set<Section>, a: nat, id: nat, o: nat) {
    exists x :: x in added && Holds(x, a) && x.mr == Backing(id, true) && o == x.offset + (a - x.addr)
  }

  ghost predicate BacksNth(added: set<Section>, addr: nat, k: nat, id: nat, o: nat) {
    Backs(added, Nth(addr, k), id, o)
  }

  ghost predicate InRam(added: set<Section>, a: nat, forbidden: set<nat>) {
    exists x :: x in added && Holds(x, a) && x.mr.Backing? && x.mr.ram && x.mr.id !in forbidden
  }

  /** All bytes from `addr` on are RAM outside the `forbidden` regions. */
  ghost predicate AllRam(added: set<Section>, addr: nat, len: nat, forbidden: set<nat>) {
    forall k: nat :: k < len ==> InRam(added, Nth(addr, k), forbidden)
  }

  /** The k-th byte is not RAM and the bytes from it on are a multiple of 2^32: the length of
      a device access is truncated to 32 bits, and nothing is left of it. */
  ghost predicate StuckAt(added: set<Section>, addr: nat, len: nat, k: nat)
    requires k < len
  {
    (len - k) % UINT_RANGE == 0 && !InRam(added, Nth(addr, k), {})
  }

  ghost predicate Stuck(added: set<Section>, addr: nat, len: nat) {
    exists k: nat :: k < len && StuckAt(added, addr, len, k)
  }

  /** 2^32 bytes of the range in a row are RAM that may not be written. */
  ghost predicate BigRom(added: set<Section>, addr: nat, len: nat, readonly: set<nat>) {
    exists k: nat :: k + UINT_RANGE <= len && Rom(added, addr, k, readonly)
  }

  ghost predicate Rom(added: set<Section>, addr: nat, k: nat, readonly: set<nat>) {
    forall i: nat :: k <= i < k + UINT_RANGE ==> InRam(added, Nth(addr, i), {}) && !InRam(added, Nth(addr, i), readonly)
  }

  /** Neither happens to short ranges or to writable RAM. */
  lemma Unstuck(added: set<Section>, addr: nat, len: nat, forbidden: set<nat>)
    ensures len < UINT_RANGE || AllRam(added, addr, len, forbidden) ==>
              !Stuck(added, addr, len) && !BigRom(added, addr, len, forbidden)
  {
    hide InRam;
    if AllRam(added, addr, len, forbidden) {
      AllReadable(added, addr, len, forbidden);
      forall k: nat | k + UINT_RANGE <= len ensures !Rom(added, addr, k, forbidden) {
        assert InRam(added, Nth(addr, k), forbidden);
      }
    }
  }

  /** Some byte of the range is backed by this one. */
  ghost predicate Reached(added: set<Section>, addr: nat, len: nat, id: nat, o: nat) {
    exists k: nat :: k < len && BacksNth(added, addr, k, id, o)
  }

  /** No two bytes of the range are backed by the same one. */
  ghost predicate Unaliased(added: set<Section>, addr: nat, len: nat) {
    forall i: nat, j: nat, id, o :: i < len && j < len && BacksNth(added, addr, i, id, o) && BacksNth(added, addr, j, id, o) ==> i == j
  }

  ghost predicate AllApart(added: set<Section>) {
    forall x, y :: x in added && y in added && x != y ==> Disjoint(x, y)
  }

  /** Every RAM section lies inside the memory of its region. */
  ghost predicate Fits(added: set<Section>, ram: Ram) {
    forall x :: x in added && x.mr.Backing? && x.mr.ram ==> x.mr.id in ram && x.offset + x.size <= |ram[x.mr.id]|
  }

  ghost predicate SameShape(ram: Ram, ram': Ram) {
    ram.Keys == ram'.Keys && forall id :: id in ram ==> |ram'[id]| == |ram[id]|
  }

  /** The range holds the bytes, and every byte that does not back it is as before. */
  ghost predicate Written(added: set<Section>, ram: Ram, ram': Ram, addr: nat, bytes: seq<Byte>) {
    && SameShape(ram, ram')
    && (forall k: nat, id, o: nat :: k < |bytes| && BacksNth(added, addr, k, id, o) && id in ram' && o < |ram'[id]| ==> ram'[id][o] == bytes[k])
    && (forall id, o: nat :: id in ram && o < |ram[id]| && !Reached(added, addr, |bytes|, id, o) ==> ram'[id][o] == ram[id][o])
  }

  /** The bytes of a chunk inside one section are backed by consecutive bytes. */
  lemma ChunkBacks(added: set<Section>, x: Section, addr: nat, count: nat, len: nat, k: nat, id: nat, o: nat)
    requires AllApart(added) && x in added && x.mr.Backing? && x.mr.ram && count <= k < count + len
    requires x.addr <= Nth(addr, count) && Nth(addr, count) + len <= Min(x.addr + x.size, WORD)
    ensures BacksNth(added, addr, k, id, o) <==> id == x.mr.id && o == x.offset + (Nth(addr, count) - x.addr) + (k - count)
  {
    NthAhead(addr, count, k - count);
    var a := Nth(addr, k);
    assert Holds(x, a);
    if Backs(added, a, id, o) {
      var y :| y in added && Holds(y, a) && y.mr == Backing(id, true) && o == y.offset + (a - y.addr);
    }
  }

  lemma ReachedStep(added: set<Section>, x: Section, addr: nat, count: nat, len: nat, id: nat, o: nat)
    requires AllApart(added) && x in added && x.mr.Backing? && x.mr.ram && 0 < len
    requires x.addr <= Nth(addr, count) && Nth(addr, count) + len <= Min(x.addr + x.size, WORD)
    ensures var start := x.offset + (Nth(addr, count) - x.addr);
            Reached(added, addr, count + len, id, o) <==>
            Reached(added, addr, count, id, o) || (id == x.mr.id && start <= o < start + len)
  {
    hide BacksNth, AllApart;
    var start := x.offset + (Nth(addr, count) - x.addr);
    forall k: nat | count <= k < count + len
      ensures BacksNth(added, addr, k, id, o) <==> id == x.mr.id && o == start + (k - count) {
      ChunkBacks(added, x, addr, count, len, k, id, o);
    }
    if id == x.mr.id && start <= o < start + len {
      assert BacksNth(added, addr, count + (o - start), id, o);
    }
  }

  /** Every byte of RAM that no byte of the range is backed by is as before. */
  ghost predicate Untouched(added: set<Section>, ram: Ram, ram': Ram, addr: nat, count: nat) {
    && SameShape(ram, ram')
    && forall id, o: nat :: id in ram && o < |ram[id]| && !Reached(added, addr, count, id, o) ==> ram'[id][o] == ram[id][o]
  }

  lemma UntouchedStep(added: set<Section>, ram: Ram, ram1: Ram, ram2: Ram, addr: nat, bytes: seq<Byte>, count: nat, x: Section)
    requires AllApart(added) && x in added && x.mr.Backing? && x.mr.ram && 0 < |bytes|
    requires x.addr <= Nth(addr, count) && Nth(addr, count) + |bytes| <= Min(x.addr + x.size, WORD)
    requires Untouched(added, ram, ram1, addr, count) && x.mr.id in ram1 && x.offset + x.size <= |ram1[x.mr.id]|
    requires ram2 == ram1[x.mr.id := Spliced(ram1[x.mr.id], x.offset + (Nth(addr, count) - x.addr), bytes)]
    ensures Untouched(added, ram, ram2, addr, count + |bytes|)
  {
    hide BacksNth, AllApart, Reached, Nth;
    forall id, o: nat | id in ram && o < |ram[id]| && !Reached(added, addr, count + |bytes|, id, o) ensures ram2[id][o] == ram[id][o] {
      ReachedStep(added, x, addr, count, |bytes|, id, o);
    }
  }

  lemma UntouchedMore(added: set<Section>, ram: Ram, ram': Ram, addr: nat, count: nat, more: nat)
    requires Untouched(added, ram, ram', addr, count) && count <= more
    ensures Untouched(added, ram, ram', addr, more)
  {
    hide BacksNth;
  }

  /** The section found for an address is a piece of the range that holds it. */
  lemma RamSection(added: set<Section>, s: Section, a: nat) returns (x: Section)
    requires Right(added, a, s) && s.mr.Backing?
    ensures x in added && Part(s, x) && Holds(s, a)
  {
    x :| x in added && Holds(x, a) && Part(s, x);
  }

  /** What holds an address in RAM is RAM. */
  lemma RamOnly(added: set<Section>, a: nat, forbidden: set<nat>)
    requires AllApart(added) && InRam(added, a, forbidden)
    ensures Hit(added, a) && forall x :: x in added && Holds(x, a) ==> x.mr.Backing? && x.mr.ram && x.mr.id !in forbidden
  {
    var y :| y in added && Holds(y, a) && y.mr.Backing? && y.mr.ram && y.mr.id !in forbidden;
  }

  /** The section found for an address is a piece of whatever range holds it. */
  lemma FoundPart(added: set<Section>, s: Section, x: Section, a: nat)
    requires AllApart(added) && Right(added, a, s) && x in added
    ensures Holds(x, a) ==> Part(s, x)
  {}

  lemma NthPlain(addr: nat, k: nat)
    ensures addr + k < WORD ==> Nth(addr, k) == addr + k
  {}

  /** An address in RAM is not found in anything else. */
  lemma RamFound(added: set<Section>, s: Section, a: nat, forbidden: set<nat>)
    requires AllApart(added) && Right(added, a, s) && InRam(added, a, forbidden)
    ensures s.mr.Backing? && s.mr.ram && s.mr.id !in forbidden
  {
    var y :| y in added && Holds(y, a) && y.mr.Backing? && y.mr.ram && y.mr.id !in forbidden;
    var x :| x in added && Holds(x, a) && Part(s, x);
  }

  /** A chunk of a section of RAM has no place to get stuck. */
  lemma RamSteady(added: set<Section>, x: Section, addr: nat, len: nat, count: nat, l: nat)
    requires x in added && x.mr.Backing? && x.mr.ram && count + l <= len
    requires x.addr <= Nth(addr, count) && Nth(addr, count) + l <= Min(x.addr + x.size, WORD)
    ensures forall k: nat :: count <= k < count + l ==> !StuckAt(added, addr, len, k)
  {
    forall k: nat | count <= k < count + l ensures InRam(added, Nth(addr, k), {}) {
      NthAhead(addr, count, k - count);
      assert Holds(x, Nth(addr, k));
    }
  }

  /** A device access goes no farther than the next place to get stuck. */
  lemma DeviceSteady(added: set<Section>, addr: nat, len: nat, count: nat, l: nat)
    requires count + l <= len && l <= (len - count) % UINT_RANGE
    ensures forall k: nat :: count <= k < count + l ==> !StuckAt(added, addr, len, k)
  {
    hide InRam;
    forall k: nat | count <= k < count + l ensures !StuckAt(added, addr, len, k) {
      var rest := len - count;
      DivModEq(rest, UINT_RANGE);
      DivModUnique(rest - (k - count), rest / UINT_RANGE, rest % UINT_RANGE - (k - count), UINT_RANGE);
    }
  }

  /** A device or unassigned address is not in RAM, and one in read-only RAM not in writable RAM. */
  lemma NotFound(added: set<Section>, s: Section, a: nat, forbidden: set<nat>)
    requires AllApart(added) && Right(added, a, s) && !(s.mr.Backing? && s.mr.ram && s.mr.id !in forbidden)
    ensures !InRam(added, a, forbidden)
  {
    hide AllApart, Right, InRam;
    if InRam(added, a, forbidden) { RamFound(added, s, a, forbidden); }
  }

  /** A whole multiple of 2^32 bytes left in a section of read-only RAM. */
  lemma RomFound(added: set<Section>, x: Section, addr: nat, len: nat, count: nat, l: nat, readonly: set<nat>)
    requires AllApart(added) && x in added && x.mr.Backing? && x.mr.ram && x.mr.id in readonly
    requires 0 < l && count + l <= len && l % UINT_RANGE == 0
    requires x.addr <= Nth(addr, count) && Nth(addr, count) + l <= Min(x.addr + x.size, WORD)
    ensures BigRom(added, addr, len, readonly)
  {
    assert l >= UINT_RANGE;
    forall i: nat | count <= i < count + UINT_RANGE
      ensures InRam(added, Nth(addr, i), {}) && !InRam(added, Nth(addr, i), readonly) {
      NthAhead(addr, count, i - count);
      assert Holds(x, Nth(addr, i));
    }
    assert Rom(added, addr, count, readonly);
  }

  class FlatView {
    const d: AddressSpaceDispatch
    const readonly: set<nat>
    /** What devices answer, and the accesses they allow. */
    const answer: (nat, nat) -> Byte
    const maxAccess: nat -> nat
    const unaligned: nat -> bool
    var ram: Ram
    /** What was written to devices: the device, the address in it and the byte. */
    var sent: seq<(nat, nat, Byte)>

    constructor (d: AddressSpaceDispatch, readonly: set<nat>, answer: (nat, nat) -> Byte, maxAccess: nat -> nat,
                 unaligned: nat -> bool, ram: Ram)
      requires d.Ready() && AllApart(d.added) && Fits(d.added, ram) && forall id :: maxAccess(id) < UINT_RANGE
      ensures Valid() && this.d == d && this.readonly == readonly && this.ram == ram && sent == []
      ensures this.answer == answer && this.maxAccess == maxAccess && this.unaligned == unaligned
    {
      sent := [];
      this.d, this.readonly, this.answer, this.maxAccess, this.unaligned, this.ram := d, readonly, answer, maxAccess, unaligned, ram;
    }

    ghost predicate Valid()
      reads this, d
    {
      d.Ready() && AllApart(d.added) && Fits(d.added, ram) && forall id :: maxAccess(id) < UINT_RANGE
    }

    /** memory_access_is_direct */
    predicate IsDirect(mr: Region, isWrite: bool) {
      mr.Backing? && mr.ram && !(isWrite && mr.id in readonly)
    }

    /** Who answers for a region. */
    function DeviceId(mr: Region): nat { if mr.Backing? then mr.id else 0 }

    /** The bytes one device access answers. */
    function Answered(id: nat, at: nat, l: nat): seq<Byte> {
      seq(l, i requires 0 <= i < l => answer(id, at + i))
    }

    function DeviceLimit(mr: Region): nat {
      if mr.Backing? && maxAccess(mr.id) != 0 then maxAccess(mr.id) else 4
    }

    /** What a read of address `a` has to give: the byte of RAM that backs it, or the answer of
        the device there. */
    ghost predicate Answers(added: set<Section>, ram: Ram, a: nat, v: Byte) {
      && (forall x :: x in added && Holds(x, a) ==>
            var o := x.offset + (a - x.addr);
            if IsDirect(x.mr, false) then x.mr.id in ram && o < |ram[x.mr.id]| && v == ram[x.mr.id][o]
            else v == answer(DeviceId(x.mr), o))
      && (!Hit(added, a) ==> v == answer(0, a))
    }

    /** A device access that starts at byte `j` may go over into byte `k`, which is not its own. */
    ghost predicate Crosses(added: set<Section>, addr: nat, j: nat, k: nat, isWrite: bool) {
      var a, b := Nth(addr, j), Nth(addr, k);
      && j < k
      && ((exists x :: x in added && Holds(x, a) && !IsDirect(x.mr, isWrite) && k - j < DeviceLimit(x.mr) && !(Holds(x, b) && b == a + (k - j))) ||
          (!Hit(added, a) && k - j < 4 && !(!Hit(added, b) && b == a + (k - j))))
    }

    ghost predicate Straddled(added: set<Section>, addr: nat, k: nat, isWrite: bool) {
      exists j: nat :: Crosses(added, addr, j, k, isWrite)
    }

    /** Behind nothing but RAM no byte is straddled. */
    lemma RamBefore(added: set<Section>, addr: nat, k: nat, isWrite: bool)
      requires AllApart(added) && AllRam(added, addr, k, if isWrite then readonly else {})
      ensures !Straddled(added, addr, k, isWrite)
    {
      hide AllApart, InRam, Nth;
      forall j: nat | j < k ensures !Crosses(added, addr, j, k, isWrite) {
        var a := Nth(addr, j);
        RamOnly(added, a, if isWrite then readonly else {});
      }
    }

    /** Inside one device no byte is straddled. */
    lemma DeviceBefore(added: set<Section>, x: Section, addr: nat, k: nat, isWrite: bool)
      requires AllApart(added) && x in added && x.addr <= addr && addr + k < Min(x.addr + x.size, WORD)
      ensures !Straddled(added, addr, k, isWrite)
    {
      forall j: nat | j < k ensures !Crosses(added, addr, j, k, isWrite) {
        assert Nth(addr, j) == addr + j && Nth(addr, k) == addr + k;
        assert Holds(x, addr + j) && Holds(x, addr + k);
      }
    }

    /** The byte `i` of a device access from byte `count` on. */
    lemma DeviceByte(sec: Section, addr: nat, count: nat, i: nat, l: nat, isWrite: bool, ram': Ram)
      requires Valid() && Right(d.added, Nth(addr, count), sec) && !IsDirect(sec.mr, isWrite) && i < l <= DeviceLimit(sec.mr)
      requires sec.addr <= Nth(addr, count)
      ensures !isWrite ==> Answers(d.added, ram', Nth(addr, count + i), answer(DeviceId(sec.mr), Nth(addr, count) - sec.addr + sec.offset + i)) ||
                           Straddled(d.added, addr, count + i, false)
      ensures isWrite && InRam(d.added, Nth(addr, count + i), readonly) ==> Straddled(d.added, addr, count + i, true)
    {
      hide AddressSpaceDispatch.Ready, Fits;
      var a, b := Nth(addr, count), Nth(addr, count + i);
      if !Crosses(d.added, addr, count, count + i, isWrite) { DeviceOwn(sec, a, b, i, isWrite, ram'); }
    }

    /** An address the access does not have to cross into is answered right. */
    lemma DeviceOwn(sec: Section, a: nat, b: nat, i: nat, isWrite: bool, ram': Ram)
      requires Valid() && Right(d.added, a, sec) && !IsDirect(sec.mr, isWrite) && sec.addr <= a && (i == 0 ==> a == b)
      requires forall x :: x in d.added && Holds(x, a) && !IsDirect(x.mr, isWrite) && i > 0 ==> Holds(x, b) && b == a + i
      requires !Hit(d.added, a) && i > 0 ==> !Hit(d.added, b) && b == a + i
      ensures !isWrite ==> Answers(d.added, ram', b, answer(DeviceId(sec.mr), a - sec.addr + sec.offset + i))
      ensures isWrite ==> !InRam(d.added, b, readonly)
    {
      hide AddressSpaceDispatch.Ready, Fits;
      if Hit(d.added, a) {
        var x :| x in d.added && Holds(x, a) && Part(sec, x);
        forall y | y in d.added && Holds(y, b) ensures y == x {}
      }
    }

    /** The largest access that a device allows; the unassigned region takes aligned words. */
    ghost predicate Fitting(mr: Region, l: nat, addr1: nat, r: nat) {
      if mr.Backing? then Largest(maxAccess(mr.id), unaligned(mr.id), l % UINT_RANGE, addr1, r)
      else Largest(4, false, l % UINT_RANGE, addr1, r)
    }

    /** The access size a device or the unassigned region takes. */
    method DeviceSize(mr: Region, l: nat, addr1: nat) returns (r: nat)
      requires forall id :: maxAccess(id) < UINT_RANGE
      ensures Fitting(mr, l, addr1, r)
      ensures r <= l % UINT_RANGE && (r == 0 <==> l % UINT_RANGE == 0) && r <= DeviceLimit(mr)
    {
      if mr.Backing? {
        r := MemoryAccessSize(maxAccess(mr.id), unaligned(mr.id), l % UINT_RANGE, addr1);
      } else {
        r := MemoryAccessSize(0, false, l % UINT_RANGE, addr1);
      }
    }

    /** How much of the rest one access may take: for RAM what the section holds. */
    function ChunkLimit(sec: Section, a: nat, rest: nat): nat
      requires Holds(sec, a)
    {
      if sec.mr.Backing? && sec.mr.ram then Min(rest, sec.addr + sec.size - a) else rest
    }

    /** One RAM chunk: qemu_ram_ptr_length and the copy. */
    method CopyIn(id: nat, addr1: nat, l: nat, buf: seq<Byte>) returns (l': nat)
      requires id in ram && addr1 + l <= |ram[id]| && l <= |buf| && 0 < l
      modifies this`ram
      ensures l' == l && ram == old(ram)[id := Spliced(old(ram)[id], addr1, buf[..l])]
    {
      l' := if l < |ram[id]| - addr1 then l else |ram[id]| - addr1;
      ram := ram[id := Spliced(ram[id], addr1, buf[..l'])];
    }

    /** flatview_translate, without an IOMMU: the section, the address in its region, and for
        RAM how much of the access the section holds. */
    method Translate(a: nat, len: nat) returns (sec: Section, addr1: nat, l: nat)
      requires Valid() && a < WORD && 0 < len
      modifies d`mru
      ensures Valid() && d.added == old(d.added) && Holds(sec, a) && Right(d.added, a, sec)
      ensures FlatMap.Valid(sec) && addr1 == a - sec.addr + sec.offset && l == ChunkLimit(sec, a, len)
    {
      hide AllApart, Fits, Right;
      var s;
      s, addr1, l := d.TranslateInternal(a, len, true);
      sec := d.sections[s];
    }

    /** One round of flatview_write_continue, on the bytes left. */
    method WriteChunk(sec: Section, a: nat, addr1: nat, l: nat, buf: seq<Byte>) returns (l': nat)
      requires Valid() && Holds(sec, a) && Right(d.added, a, sec) && addr1 == a - sec.addr + sec.offset
      requires 0 < l <= |buf| && l == ChunkLimit(sec, a, |buf|)
      modifies this`ram, this`sent
      ensures Valid() && SameShape(old(ram), ram)
      ensures !IsDirect(sec.mr, true) ==> ram == old(ram) && l' <= l % UINT_RANGE && (l' == 0 <==> l % UINT_RANGE == 0)
      ensures !IsDirect(sec.mr, true) ==> Fitting(sec.mr, l, addr1, l')
      ensures !IsDirect(sec.mr, true) ==> l' <= Min(l, DeviceLimit(sec.mr)) && sent == old(sent) + Sent(DeviceId(sec.mr), addr1, buf[..l'])
      ensures IsDirect(sec.mr, true) ==>
                l' == l && sent == old(sent) && sec.mr.id in old(ram) && addr1 + l <= |old(ram)[sec.mr.id]| &&
                ram == old(ram)[sec.mr.id := Spliced(old(ram)[sec.mr.id], addr1, buf[..l])]
    {
      hide AllApart, Right, Fits, Fitting, Largest, Sent, AddressSpaceDispatch.Ready;
      if !IsDirect(sec.mr, true) {
        l' := DeviceSize(sec.mr, l, addr1);
        sent := sent + Sent(DeviceId(sec.mr), addr1, buf[..l']);
      } else {
        ghost var x := RamSection(d.added, sec, a);
        FitsAt(d.added, ram, x);
        l' := CopyIn(sec.mr.id, addr1, l, buf);
        FitsKept(d.added, old(ram), ram);
      }
    }

    /** Every byte of writable RAM among the first `count` ones is written, unless a device
        access may have gone over into it. */
    ghost predicate RamWritten(added: set<Section>, ram: Ram, addr: nat, bytes: seq<Byte>, count: nat)
      requires count <= |bytes|
    {
      forall k: nat, id, o: nat :: k < count && BacksNth(added, addr, k, id, o) && id !in readonly && id in ram && o < |ram[id]| ==>
        ram[id][o] == bytes[k] || Straddled(added, addr, k, true)
    }

    /** Read-only RAM is as before. */
    ghost predicate RomKept(ram: Ram, ram': Ram) {
      forall id :: id in readonly && id in ram ==> id in ram' && ram'[id] == ram[id]
    }

    /** What a write inside one device sends to it. */
    ghost predicate AllSent(added: set<Section>, sent0: seq<(nat, nat, Byte)>, sent1: seq<(nat, nat, Byte)>, addr: nat, bytes: seq<Byte>, count: nat)
      requires count <= |bytes|
    {
      forall x :: x in added && !IsDirect(x.mr, true) && x.addr <= addr && addr + |bytes| <= Min(x.addr + x.size, WORD) ==>
        sent1 == sent0 + Sent(DeviceId(x.mr), x.offset + (addr - x.addr), bytes[..count])
    }

    /** flatview_write. The loop ends behind the last byte, or makes no progress any more
        after `count` bytes. */
    method Write(addr: nat, bytes: seq<Byte>) returns (count: nat)
      requires Valid() && addr < WORD && 0 < |bytes| < WORD
      modifies this`ram, this`sent, d`mru
      ensures Valid() && d.added == old(d.added) && count <= |bytes|
      ensures Stuck(d.added, addr, |bytes|) ==> count < |bytes|
      ensures count < |bytes| ==> Stuck(d.added, addr, |bytes|) || BigRom(d.added, addr, |bytes|, readonly)
      ensures Untouched(d.added, old(ram), ram, addr, |bytes|) && RomKept(old(ram), ram)
      ensures Unaliased(d.added, addr, |bytes|) ==> RamWritten(d.added, ram, addr, bytes, count)
      ensures AllSent(d.added, old(sent), sent, addr, bytes, count)
      ensures AllRam(d.added, addr, |bytes|, readonly) ==> count == |bytes| && sent == old(sent)
      ensures AllRam(d.added, addr, |bytes|, readonly) && Unaliased(d.added, addr, |bytes|) ==> Written(d.added, old(ram), ram, addr, bytes)
    {
      hide Written, Unaliased, AllRam, AllApart, Right, InRam, Fits, StuckAt, Stuck, BigRom, Nth, Spliced, SameShape, AddressSpaceDispatch.Ready,
           Untouched, RamWritten, RomKept, AllSent, Sent, Fitting, Largest, Straddled;
      ghost var added, ram0, sent0 := d.added, ram, sent;
      ghost var plain := Unaliased(added, addr, |bytes|);
      ghost var direct := AllRam(added, addr, |bytes|, readonly);
      var a := addr;
      count := 0;
      NothingDone(addr, bytes);
      var sec, addr1, l := Translate(a, |bytes|);
      while true
        invariant 0 <= count < |bytes| && a == Nth(addr, count) && d.added == added && Valid()
        invariant Holds(sec, a) && Right(added, a, sec) && addr1 == a - sec.addr + sec.offset
        invariant FlatMap.Valid(sec) && l == ChunkLimit(sec, a, |bytes| - count)
        invariant forall k: nat :: k < count ==> !StuckAt(added, addr, |bytes|, k)
        invariant Untouched(added, ram0, ram, addr, count) && RomKept(ram0, ram)
        invariant plain ==> RamWritten(added, ram, addr, bytes, count)
        invariant AllSent(added, sent0, sent, addr, bytes, count)
        invariant direct ==> sent == sent0
        decreases |bytes| - count
      {
        ghost var before, sentBefore, limit := ram, sent, l;
        l := WriteChunk(sec, a, addr1, l, bytes[count..]);
        ChunkSteady(sec, addr, |bytes|, count, limit, l, true);
        assert bytes[count..][..l] == bytes[count..count + l];
        if direct {
          RamAt(added, addr, |bytes|, readonly, count);
          RamFound(added, sec, a, readonly);
        }
        if IsDirect(sec.mr, true) {
          RamChunk(sec, ram0, before, addr, bytes, count, l, plain);
          SentNone(sec, sent0, addr, bytes, count, l);
        } else {
          DeviceChunk(sec, ram0, addr, bytes, count, l, plain);
          SentMore(sec, sent0, sentBefore, addr, bytes, count, l);
        }
        if l == 0 {
          Unstuck(added, addr, |bytes|, readonly);
          StuckSome(added, addr, |bytes|, count);
          UntouchedMore(added, ram0, ram, addr, count, |bytes|);
          return;
        }
        NthMore(addr, count, l);
        count := count + l;
        a := (a + l) % WORD;
        if count == |bytes| { break; }
        sec, addr1, l := Translate(a, |bytes| - count);
      }
      StuckNone(added, addr, |bytes|);
      if direct && plain { AllWritten(ram0, addr, bytes); }
    }

    lemma NothingDone(addr: nat, bytes: seq<Byte>)
      requires Valid() && addr < WORD
      ensures Nth(addr, 0) == addr
      ensures Untouched(d.added, ram, ram, addr, 0) && RomKept(ram, ram) && RamWritten(d.added, ram, addr, bytes, 0)
      ensures AllSent(d.added, sent, sent, addr, bytes, 0)
    {
      assert bytes[..0] == [];
      assert forall id, o :: sent + Sent(id, o, []) == sent;
    }

    /** A chunk of RAM extends what has been written. */
    lemma RamChunk(sec: Section, ram0: Ram, before: Ram, addr: nat, bytes: seq<Byte>, count: nat, l: nat, plain: bool)
      requires Valid() && Right(d.added, Nth(addr, count), sec) && IsDirect(sec.mr, true) && Fits(d.added, before)
      requires Nth(addr, count) + l <= Min(sec.addr + sec.size, WORD) && 0 < l && count + l <= |bytes|
      requires Untouched(d.added, ram0, before, addr, count) && RomKept(ram0, before)
      requires plain ==> Unaliased(d.added, addr, |bytes|) && RamWritten(d.added, before, addr, bytes, count)
      requires Holds(sec, Nth(addr, count)) && sec.mr.id in before
      requires var start := Nth(addr, count) - sec.addr + sec.offset;
               start + l <= |before[sec.mr.id]| &&
               ram == before[sec.mr.id := Spliced(before[sec.mr.id], start, bytes[count..count + l])]
      ensures Untouched(d.added, ram0, ram, addr, count + l) && RomKept(ram0, ram)
      ensures plain ==> RamWritten(d.added, ram, addr, bytes, count + l)
    {
      hide Unaliased, AllApart, Right, Fits, Nth, AddressSpaceDispatch.Ready, Untouched, Spliced, RamWritten, Straddled;
      var x := RamSection(d.added, sec, Nth(addr, count));
      FitsAt(d.added, before, x);
      UntouchedStep(d.added, ram0, before, ram, addr, bytes[count..count + l], count, x);
      if plain { RamWrittenStep(before, addr, bytes, count, l, x); }
    }

    lemma RamWrittenStep(before: Ram, addr: nat, bytes: seq<Byte>, count: nat, l: nat, x: Section)
      requires AllApart(d.added) && x in d.added && x.mr.Backing? && x.mr.ram && 0 < l && count + l <= |bytes|
      requires x.addr <= Nth(addr, count) && Nth(addr, count) + l <= Min(x.addr + x.size, WORD)
      requires Unaliased(d.added, addr, |bytes|) && RamWritten(d.added, before, addr, bytes, count)
      requires x.mr.id in before && x.offset + x.size <= |before[x.mr.id]|
      requires ram == before[x.mr.id := Spliced(before[x.mr.id], x.offset + (Nth(addr, count) - x.addr), bytes[count..count + l])]
      ensures RamWritten(d.added, ram, addr, bytes, count + l)
    {
      hide BacksNth, AllApart, Nth, Straddled;
      var start := x.offset + (Nth(addr, count) - x.addr);
      forall k: nat, id, o: nat | k < count + l && BacksNth(d.added, addr, k, id, o) && id !in readonly && id in ram && o < |ram[id]|
        ensures ram[id][o] == bytes[k] || Straddled(d.added, addr, k, true) {
        if k < count {
          if id == x.mr.id && start <= o < start + l {
            ChunkBacks(d.added, x, addr, count, l, count + (o - start), id, o);
            assert false;
          }
        } else {
          ChunkBacks(d.added, x, addr, count, l, k, id, o);
        }
      }
    }

    /** A device access changes no RAM; the bytes of RAM it goes over into are straddled. */
    lemma DeviceChunk(sec: Section, ram0: Ram, addr: nat, bytes: seq<Byte>, count: nat, l: nat, plain: bool)
      requires Valid() && Right(d.added, Nth(addr, count), sec) && !IsDirect(sec.mr, true) && l <= DeviceLimit(sec.mr)
      requires sec.addr <= Nth(addr, count) && count + l <= |bytes|
      requires Untouched(d.added, ram0, ram, addr, count)
      requires plain ==> RamWritten(d.added, ram, addr, bytes, count)
      ensures Untouched(d.added, ram0, ram, addr, count + l)
      ensures plain ==> RamWritten(d.added, ram, addr, bytes, count + l)
    {
      hide AllApart, Right, Fits, Nth, AddressSpaceDispatch.Ready, Untouched, Straddled;
      UntouchedMore(d.added, ram0, ram, addr, count, count + l);
      forall k: nat, id, o: nat | count <= k < count + l && BacksNth(d.added, addr, k, id, o) && id !in readonly
        ensures Straddled(d.added, addr, k, true) {
        DeviceByte(sec, addr, count, k - count, l, true, ram);
        BackedInRam(d.added, addr, k, id, o, readonly);
      }
    }

    /** Inside one device no chunk is RAM. */
    lemma SentNone(sec: Section, sent0: seq<(nat, nat, Byte)>, addr: nat, bytes: seq<Byte>, count: nat, l: nat)
      requires Valid() && Right(d.added, Nth(addr, count), sec) && IsDirect(sec.mr, true) && count + l <= |bytes| && 0 < l
      ensures AllSent(d.added, sent0, sent, addr, bytes, count + l)
    {
      hide AddressSpaceDispatch.Ready, Fits, AllApart, Right, Nth, Sent;
      NthPlain(addr, count);
      forall x | x in d.added && !IsDirect(x.mr, true) ensures !Holds(x, Nth(addr, count)) {
        FoundPart(d.added, sec, x, Nth(addr, count));
      }
    }

    lemma SentMore(sec: Section, sent0: seq<(nat, nat, Byte)>, before: seq<(nat, nat, Byte)>, addr: nat, bytes: seq<Byte>, count: nat, l: nat)
      requires Valid() && Right(d.added, Nth(addr, count), sec) && sec.addr <= Nth(addr, count) && count + l <= |bytes| && count < |bytes|
      requires AllSent(d.added, sent0, before, addr, bytes, count)
      requires sent == before + Sent(DeviceId(sec.mr), Nth(addr, count) - sec.addr + sec.offset, bytes[count..count + l])
      ensures AllSent(d.added, sent0, sent, addr, bytes, count + l)
    {
      hide AddressSpaceDispatch.Ready, Fits, AllApart, Right, Nth, Sent;
      NthPlain(addr, count);
      forall x | x in d.added && !IsDirect(x.mr, true) && x.addr <= addr && addr + |bytes| <= Min(x.addr + x.size, WORD)
        ensures sent == sent0 + Sent(DeviceId(x.mr), x.offset + (addr - x.addr), bytes[..count + l]) {
        FoundPart(d.added, sec, x, Nth(addr, count));
        SentJoin(DeviceId(x.mr), x.offset + (addr - x.addr), bytes, count, l);
      }
    }

    lemma AllWritten(ram0: Ram, addr: nat, bytes: seq<Byte>)
      requires Valid() && AllRam(d.added, addr, |bytes|, readonly) && Untouched(d.added, ram0, ram, addr, |bytes|)
      requires RamWritten(d.added, ram, addr, bytes, |bytes|)
      ensures Written(d.added, ram0, ram, addr, bytes)
    {
      hide AddressSpaceDispatch.Ready, Fits, Straddled, SameShape;
      forall k: nat, id, o: nat | k < |bytes| && BacksNth(d.added, addr, k, id, o) && id in ram && o < |ram[id]| ensures ram[id][o] == bytes[k] {
        RamBefore(d.added, addr, k, true);
        RamAt(d.added, addr, |bytes|, readonly, k);
        WritableId(d.added, Nth(addr, k), id, o, readonly);
      }
    }

    /** What one round says about getting stuck: it does exactly where nothing is left of the
        truncated length, and steps over no such place. */
    lemma ChunkSteady(sec: Section, addr: nat, len: nat, count: nat, limit: nat, l: nat, isWrite: bool)
      requires Valid() && count < len && FlatMap.Valid(sec) && Holds(sec, Nth(addr, count)) && Right(d.added, Nth(addr, count), sec)
      requires limit == ChunkLimit(sec, Nth(addr, count), len - count)
      requires if IsDirect(sec.mr, isWrite) then l == limit else l <= limit % UINT_RANGE && (l == 0 <==> limit % UINT_RANGE == 0)
      ensures count + l <= len
      ensures forall k: nat :: count <= k < count + l ==> !StuckAt(d.added, addr, len, k)
      ensures l == 0 ==> StuckAt(d.added, addr, len, count) || (isWrite && BigRom(d.added, addr, len, readonly))
    {
      hide AllApart, Right, Fits, InRam, BigRom, Nth;
      var a := Nth(addr, count);
      if sec.mr.Backing? && sec.mr.ram {
        var x := RamSection(d.added, sec, a);
        RamSteady(d.added, x, addr, len, count, l);
        if l == 0 { RomFound(d.added, x, addr, len, count, limit, readonly); }
      } else {
        DeviceSteady(d.added, addr, len, count, l);
        NotFound(d.added, sec, a, {});
      }
    }

    /** The first bytes are what they have to be, unless a device access may have gone over
        into them. */
    ghost predicate AllAnswered(added: set<Section>, ram: Ram, addr: nat, buf: seq<Byte>) {
      forall k: nat :: k < |buf| ==> Answers(added, ram, Nth(addr, k), buf[k]) || Straddled(added, addr, k, false)
    }

    /** flatview_read; devices answer byte by byte. It stops short exactly if the range has a
        place to get stuck. */
    method Read(addr: nat, len: nat) returns (buf: seq<Byte>)
      requires Valid() && addr < WORD && 0 < len < WORD
      modifies d`mru
      ensures Valid() && d.added == old(d.added) && |buf| <= len
      ensures |buf| < len <==> Stuck(d.added, addr, len)
      ensures AllAnswered(d.added, ram, addr, buf)
      ensures forall x :: x in d.added && !IsDirect(x.mr, false) && x.addr <= addr && addr + len <= Min(x.addr + x.size, WORD) ==>
                forall k: nat :: k < |buf| ==> buf[k] == answer(DeviceId(x.mr), x.offset + (addr + k - x.addr))
      ensures AllRam(d.added, addr, len, {}) ==> |buf| == len && Shows(d.added, ram, addr, buf)
    {
      hide Shows, AllRam, AllApart, Right, InRam, Fits, StuckAt, Stuck, BigRom, Nth, AddressSpaceDispatch.Ready, AllAnswered;
      ghost var added := d.added;
      var a := addr;
      buf := [];
      NothingRead(addr);
      var sec, addr1, l := Translate(a, len);
      while true
        invariant |buf| < len && a == Nth(addr, |buf|) && d.added == added && Valid()
        invariant Holds(sec, a) && Right(added, a, sec) && addr1 == a - sec.addr + sec.offset
        invariant FlatMap.Valid(sec) && l == ChunkLimit(sec, a, len - |buf|)
        invariant forall k: nat :: k < |buf| ==> !StuckAt(added, addr, len, k)
        invariant AllAnswered(added, ram, addr, buf)
        decreases len - |buf|
      {
        ghost var count, limit := |buf|, l;
        if !IsDirect(sec.mr, false) {
          l := DeviceSize(sec.mr, l, addr1);
          DeviceRead(sec, addr, buf, l);
          buf := buf + Answered(DeviceId(sec.mr), addr1, l);
        } else {
          ghost var x := RamSection(added, sec, a);
          FitsAt(added, ram, x);
          RamRead(x, addr, buf, l);
          buf := buf + ram[sec.mr.id][addr1..addr1 + l];
        }
        ChunkSteady(sec, addr, len, count, limit, l, false);
        if l == 0 {
          Unstuck(added, addr, len, {});
          StuckSome(added, addr, len, count);
          ReadMeans(addr, len, buf);
          return;
        }
        NthMore(addr, count, l);
        a := (a + l) % WORD;
        if |buf| == len { break; }
        sec, addr1, l := Translate(a, len - |buf|);
      }
      StuckNone(added, addr, len);
      ReadMeans(addr, len, buf);
    }

    lemma NothingRead(addr: nat)
      requires Valid() && addr < WORD
      ensures Nth(addr, 0) == addr && AllAnswered(d.added, ram, addr, [])
    {}

    lemma DeviceRead(sec: Section, addr: nat, buf: seq<Byte>, l: nat)
      requires Valid() && Right(d.added, Nth(addr, |buf|), sec) && !IsDirect(sec.mr, false) && l <= DeviceLimit(sec.mr)
      requires sec.addr <= Nth(addr, |buf|) && AllAnswered(d.added, ram, addr, buf)
      ensures var addr1 := Nth(addr, |buf|) - sec.addr + sec.offset;
              AllAnswered(d.added, ram, addr, buf + Answered(DeviceId(sec.mr), addr1, l))
    {
      hide AllApart, Right, Fits, Nth, AddressSpaceDispatch.Ready, Straddled, Answers;
      var addr1 := Nth(addr, |buf|) - sec.addr + sec.offset;
      var more := buf + Answered(DeviceId(sec.mr), addr1, l);
      forall k: nat | k < |more| ensures Answers(d.added, ram, Nth(addr, k), more[k]) || Straddled(d.added, addr, k, false) {
        if k >= |buf| {
          DeviceByte(sec, addr, |buf|, k - |buf|, l, false, ram);
        }
      }
    }

    lemma RamRead(x: Section, addr: nat, buf: seq<Byte>, l: nat)
      requires Valid() && x in d.added && IsDirect(x.mr, false) && x.mr.id in ram && x.offset + x.size <= |ram[x.mr.id]|
      requires x.addr <= Nth(addr, |buf|) && Nth(addr, |buf|) + l <= Min(x.addr + x.size, WORD) && AllAnswered(d.added, ram, addr, buf)
      ensures var start := x.offset + (Nth(addr, |buf|) - x.addr);
              AllAnswered(d.added, ram, addr, buf + ram[x.mr.id][start..start + l])
    {
      hide Fits, Nth, AddressSpaceDispatch.Ready, Straddled;
      var start := x.offset + (Nth(addr, |buf|) - x.addr);
      var more := buf + ram[x.mr.id][start..start + l];
      forall k: nat | k < |more| ensures Answers(d.added, ram, Nth(addr, k), more[k]) || Straddled(d.added, addr, k, false) {
        if k >= |buf| {
          NthAhead(addr, |buf|, k - |buf|);
          assert Holds(x, Nth(addr, k));
        }
      }
    }

    /** Bytes inside one device, and bytes of a range of RAM, are what they have to be. */
    lemma ReadMeans(addr: nat, len: nat, buf: seq<Byte>)
      requires Valid() && AllAnswered(d.added, ram, addr, buf) && |buf| <= len
      ensures forall x :: x in d.added && !IsDirect(x.mr, false) && x.addr <= addr && addr + len <= Min(x.addr + x.size, WORD) ==>
                forall k: nat :: k < |buf| ==> buf[k] == answer(DeviceId(x.mr), x.offset + (addr + k - x.addr))
      ensures AllRam(d.added, addr, len, {}) ==> Shows(d.added, ram, addr, buf)
    {
      hide Fits, AddressSpaceDispatch.Ready, Straddled;
      forall x, k: nat | x in d.added && !IsDirect(x.mr, false) && x.addr <= addr && addr + len <= Min(x.addr + x.size, WORD) && k < |buf|
        ensures buf[k] == answer(DeviceId(x.mr), x.offset + (addr + k - x.addr)) {
        DeviceBefore(d.added, x, addr, k, false);
        assert Nth(addr, k) == addr + k && Holds(x, addr + k);
      }
      if AllRam(d.added, addr, len, {}) {
        forall k: nat, id, o: nat | k < |buf| && BacksNth(d.added, addr, k, id, o) && id in ram && o < |ram[id]| ensures buf[k] == ram[id][o] {
          RamBefore(d.added, addr, k, false);
        }
      }
    }

    /** What is written to RAM is read back, and nothing else changes. */
    method WriteThenRead(addr: nat, bytes: seq<Byte>) returns (back: seq<Byte>)
      requires Valid() && addr < WORD && 0 < |bytes| < WORD
      requires AllRam(d.added, addr, |bytes|, readonly) && Unaliased(d.added, addr, |bytes|)
      modifies this`ram, this`sent, d`mru
      ensures Valid() && back == bytes && sent == old(sent) && Written(d.added, old(ram), ram, addr, bytes)
    {
      hide Written, Shows, Unaliased, AllRam, AllApart, Right, InRam, Fits, Stuck, BigRom;
      var count := Write(addr, bytes);
      AllReadable(d.added, addr, |bytes|, readonly);
      back := Read(addr, |bytes|);
      ReadBack(d.added, old(ram), ram, addr, bytes, back);
    }
  }

  /** Reading 2^32 bytes where nothing is mapped makes no progress at the first of them. */
  method UnassignedRead() returns (buf: seq<Byte>)
    ensures |buf| < UINT_RANGE
  {
    hide Stuck;
    assert Pow2(12) > 0;
    var d, ok := DispatchOf(12, []);
    var v := new FlatView(d, {}, (_, _) => 0, _ => 0, _ => false, map[]);
    assert StuckAt(d.added, 0, UINT_RANGE, 0);
    StuckSome(d.added, 0, UINT_RANGE, 0);
    buf := v.Read(0, UINT_RANGE);
  }

  lemma NthMore(addr: nat, k: nat, l: nat)
    ensures (Nth(addr, k) + l) % WORD == Nth(addr, k + l)
  {}

  lemma StuckSome(added: set<Section>, addr: nat, len: nat, k: nat)
    requires k < len
    ensures StuckAt(added, addr, len, k) ==> Stuck(added, addr, len)
  {}

  lemma StuckNone(added: set<Section>, addr: nat, len: nat)
    requires forall k: nat :: k < len ==> !StuckAt(added, addr, len, k)
    ensures !Stuck(added, addr, len)
  {}

  /** The bytes are those that back the range. */
  ghost predicate Shows(added: set<Section>, ram: Ram, addr: nat, buf: seq<Byte>) {
    forall k: nat, id, o: nat :: k < |buf| && BacksNth(added, addr, k, id, o) && id in ram && o < |ram[id]| ==> buf[k] == ram[id][o]
  }

  lemma AllReadable(added: set<Section>, addr: nat, len: nat, forbidden: set<nat>)
    requires AllRam(added, addr, len, forbidden)
    ensures AllRam(added, addr, len, {})
  {
    forall k: nat | k < len ensures InRam(added, Nth(addr, k), {}) {
      assert InRam(added, Nth(addr, k), forbidden);
    }
  }

  lemma ReadBack(added: set<Section>, ram: Ram, ram': Ram, addr: nat, bytes: seq<Byte>, back: seq<Byte>)
    requires AllRam(added, addr, |bytes|, {}) && Fits(added, ram') && Written(added, ram, ram', addr, bytes)
    requires Shows(added, ram', addr, back) && |back| == |bytes|
    ensures back == bytes
  {
    forall k: nat | k < |bytes| ensures back[k] == bytes[k] {
      var a := Nth(addr, k);
      assert InRam(added, a, {});
      var x :| x in added && Holds(x, a) && x.mr.Backing? && x.mr.ram;
      assert BacksNth(added, addr, k, x.mr.id, x.offset + (a - x.addr));
    }
  }

  /** The bytes an access sends to a device. */
  function Sent(id: nat, at: nat, bytes: seq<Byte>): seq<(nat, nat, Byte)> {
    seq(|bytes|, i requires 0 <= i < |bytes| => (id, at + i, bytes[i]))
  }

  lemma SentJoin(id: nat, at: nat, bytes: seq<Byte>, count: nat, l: nat)
    requires count + l <= |bytes|
    ensures Sent(id, at, bytes[..count]) + Sent(id, at + count, bytes[count..count + l]) == Sent(id, at, bytes[..count + l])
  {}

  lemma BackedInRam(added: set<Section>, addr: nat, k: nat, id: nat, o: nat, forbidden: set<nat>)
    requires BacksNth(added, addr, k, id, o) && id !in forbidden
    ensures InRam(added, Nth(addr, k), forbidden)
  {}

  lemma WritableId(added: set<Section>, a: nat, id: nat, o: nat, forbidden: set<nat>)
    requires AllApart(added) && InRam(added, a, forbidden) && Backs(added, a, id, o)
    ensures id !in forbidden
  {
    var x :| x in added && Holds(x, a) && x.mr == Backing(id, true) && o == x.offset + (a - x.addr);
    var y :| y in added && Holds(y, a) && y.mr.Backing? && y.mr.ram && y.mr.id !in forbidden;
  }

  lemma RamAt(added: set<Section>, addr: nat, len: nat, forbidden: set<nat>, k: nat)
    requires AllRam(added, addr, len, forbidden) && k < len
    ensures InRam(added, Nth(addr, k), forbidden)
  {}

  lemma FitsAt(added: set<Section>, ram: Ram, x: Section)
    requires Fits(added, ram) && x in added && x.mr.Backing? && x.mr.ram
    ensures x.mr.id in ram && x.offset + x.size <= |ram[x.mr.id]|
  {}

  lemma FitsKept(added: set<Section>, ram: Ram, ram': Ram)
    requires Fits(added, ram) && SameShape(ram, ram')
    ensures Fits(added, ram')
  {}
}
