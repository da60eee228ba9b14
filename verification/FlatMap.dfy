/** What the dispatch index has to agree with: a plain set of disjoint address
    ranges. The index itself is a radix map from pages to sections, with a table
    of byte-granular sections for pages that sections only partly cover. */
module FlatMap {
  import opened Arithmetic
  import opened RadixCompact
  import opened RadixMap
  import opened Words

  datatype Region = Unassigned | Subpage(table: nat) | Backing(id: nat, ram: bool)

  /** MemoryRegionSection: `addr` is offset_within_address_space and `offset` is
      offset_within_region. */
  datatype Section = Section(mr: Region, addr: nat, offset: nat, size: nat)

  /** subpage_t: the section number of every byte of the page at `base`. */
  datatype SubTable = SubTable(base: nat, sub: seq<nat>)

  /** The index: page size, levels, radix map and the tables its leaves refer to. */
  datatype Index = Index(ps: nat, levels: nat, nodes: seq<Node>, root: Entry,
                         sections: seq<Section>, subs: seq<SubTable>)

  const DUMMY: Section := Section(Unassigned, 0, 0, WORD)

  predicate Valid(s: Section) {
    s.size > 0 && s.addr + s.size <= WORD && s.offset + s.size <= WORD
  }

  predicate Holds(s: Section, a: nat) {
    s.addr <= a < s.addr + s.size
  }

  predicate Disjoint(s: Section, t: Section) {
    s.addr + s.size <= t.addr || t.addr + t.size <= s.addr
  }

  /** `s` is a piece of `x`: same region, same translation of every byte. */
  predicate Part(s: Section, x: Section) {
    && s.mr == x.mr
    && x.addr <= s.addr && s.addr + s.size <= x.addr + x.size
    && s.offset - s.addr == x.offset - x.addr
  }

  ghost predicate Hit(added: set<Section>, a: nat) {
    exists x :: x in added && Holds(x, a)
  }

  /** `s` is the answer the plain set of ranges gives for address `a`. */
  ghost predicate Right(added: set<Section>, a: nat, s: Section) {
    if Hit(added, a) then Holds(s, a) && exists x :: x in added && Holds(x, a) && Part(s, x)
    else s == DUMMY
  }

  function Page(v: Index, p: nat): nat {
    Walk(v.nodes, v.root, v.levels, p)
  }

  predicate InPages(s: Section, ps: nat, q: nat)
    requires ps > 0
  {
    s.addr / ps <= q < s.addr / ps + s.size / ps
  }

  predicate WholePages(s: Section, ps: nat)
    requires ps > 0
  {
    s.addr % ps == 0 && s.size % ps == 0
  }

  ghost predicate TableOk(v: Index, t: nat, base: nat) {
    && t < |v.subs| && v.subs[t].base == base && |v.subs[t].sub| == v.ps
    && forall o :: 0 <= o < v.ps ==> v.subs[t].sub[o] < |v.sections|
  }

  /** The section of page `p`, if any, is mapped exactly: the pages it covers are
      the pages that lead to it. */
  ghost predicate PageOk(v: Index, p: nat)
    requires v.ps > 0
  {
    var s := Page(v, p);
    s != PHYS_SECTION_UNASSIGNED ==>
      && s < |v.sections| && WholePages(v.sections[s], v.ps) && InPages(v.sections[s], v.ps, p)
      && !v.sections[s].mr.Unassigned?
      && (forall q :: InPages(v.sections[s], v.ps, q) ==> Page(v, q) == s)
      && (v.sections[s].mr.Subpage? ==>
            v.sections[s].size == v.ps && TableOk(v, v.sections[s].mr.table, v.sections[s].addr))
  }

  ghost predicate Shape(v: Index) {
    && v.ps > 0
    && |v.sections| > 0 && v.sections[0] == DUMMY
    && (forall i :: 0 <= i < |v.sections| ==> Valid(v.sections[i]))
    && (forall p :: 0 <= p < Span(v.levels) ==> PageOk(v, p))
    && WORD <= Span(v.levels) * v.ps && WORD % v.ps == 0
  }

  lemma PageInRange(v: Index, a: nat)
    requires v.ps > 0 && WORD <= Span(v.levels) * v.ps && a < WORD
    ensures 0 <= a / v.ps < Span(v.levels)
  {
    DivLess(a, Span(v.levels), v.ps);
  }

  /** The section an address resolves to, through the sub-page table if there is one. */
  ghost function Resolve(v: Index, a: nat): Section
    requires Shape(v) && a < WORD
  {
    PageInRange(v, a);
    assert PageOk(v, a / v.ps);
    var s := v.sections[Page(v, a / v.ps)];
    if s.mr.Subpage? then v.sections[v.subs[s.mr.table].sub[a % v.ps]] else s
  }

  /** The index answers every address the way the set of ranges does. */
  ghost predicate Agrees(v: Index, added: set<Section>) {
    && Shape(v)
    && (forall x :: x in added ==> x.mr.Backing?)
    && forall a :: 0 <= a < WORD ==> Right(added, a, Resolve(v, a))
  }

  lemma WholePagesHold(s: Section, ps: nat, a: nat)
    requires ps > 0 && WholePages(s, ps)
    ensures Holds(s, a) <==> InPages(s, ps, a / ps)
  {
    var f, n, q := s.addr / ps, s.size / ps, a / ps;
    DivModEq(s.addr, ps);
    DivModEq(s.size, ps);
    DivModEq(a, ps);
    Distribute(f, n, ps);
    Distribute(q, 1, ps);
    if q < f { MulOrder(q + 1, f, ps); } else { MulOrder(f, q, ps); }
    if q < f + n { MulOrder(q + 1, f + n, ps); } else { MulOrder(f + n, q, ps); }
  }

  /** phys_section_add: an extra section changes no answer. */
  lemma SectionAdded(v: Index, added: set<Section>, x: Section)
    requires Agrees(v, added) && Valid(x)
    ensures Agrees(v.(sections := v.sections + [x]), added)
  {
    var v' := v.(sections := v.sections + [x]);
    forall p | 0 <= p < Span(v.levels) ensures PageOk(v', p) {
      assert PageOk(v, p);
      SamePages(v, v');
    }
    forall a | 0 <= a < WORD ensures Right(added, a, Resolve(v', a)) {
      PageInRange(v, a);
      assert PageOk(v, a / v.ps);
      assert Resolve(v', a) == Resolve(v, a);
    }
  }

  lemma SamePages(v: Index, v': Index)
    requires v'.nodes == v.nodes && v'.root == v.root && v'.levels == v.levels
    ensures forall p :: Page(v', p) == Page(v, p)
  {}

  /** Exactly the pages of section number `s` now lead to it. */
  ghost predicate Mapped(v: Index, v': Index, s: nat)
    requires v.ps > 0 && s < |v.sections|
  {
    && v' == v.(nodes := v'.nodes, root := v'.root)
    && forall p :: 0 <= p < Span(v.levels) ==>
         Page(v', p) == if InPages(v.sections[s], v.ps, p) then s else Page(v, p)
  }

  ghost predicate PagesFree(v: Index, s: nat)
    requires v.ps > 0 && s < |v.sections|
  {
    && (forall p :: 0 <= p < Span(v.levels) && InPages(v.sections[s], v.ps, p) ==> Page(v, p) == PHYS_SECTION_UNASSIGNED)
    && (forall p :: 0 <= p < Span(v.levels) ==> Page(v, p) != s)
  }

  lemma MappedShape(v: Index, v': Index, s: nat)
    requires Shape(v) && 0 < s < |v.sections| && PagesFree(v, s) && Mapped(v, v', s)
    requires WholePages(v.sections[s], v.ps) && !v.sections[s].mr.Unassigned?
    requires v.sections[s].mr.Subpage? ==>
               v.sections[s].size == v.ps && TableOk(v, v.sections[s].mr.table, v.sections[s].addr)
    ensures Shape(v')
  {
    forall p | 0 <= p < Span(v'.levels) ensures PageOk(v', p) {
      assert PageOk(v, p);
      var r := Page(v', p);
      if r == s {
        forall q: nat | InPages(v.sections[s], v.ps, q) ensures Page(v', q) == s {
          PagesBounded(v, s, q);
        }
      } else if r != PHYS_SECTION_UNASSIGNED {
        forall q | InPages(v.sections[r], v.ps, q) ensures Page(v', q) == r {
          assert Page(v, q) == r;
          PagesBounded(v, r, q);
        }
      }
    }
  }

  lemma PagesBounded(v: Index, s: nat, q: nat)
    requires Shape(v) && s < |v.sections| && WholePages(v.sections[s], v.ps) && InPages(v.sections[s], v.ps, q)
    ensures q < Span(v.levels)
  {
    var a := q * v.ps;
    DivModUnique(a, q, 0, v.ps);
    WholePagesHold(v.sections[s], v.ps, a);
    PageInRange(v, a);
  }

  /** An address outside section `s` resolves as before. */
  lemma ResolveElsewhere(v: Index, v': Index, s: nat, a: nat)
    requires Shape(v) && Shape(v') && s < |v.sections| && Mapped(v, v', s) && WholePages(v.sections[s], v.ps)
    requires a < WORD && !Holds(v.sections[s], a)
    ensures Resolve(v', a) == Resolve(v, a)
  {
    WholePagesHold(v.sections[s], v.ps, a);
    PageInRange(v, a);
    assert PageOk(v, a / v.ps);
  }

  lemma ResolveThere(v: Index, v': Index, s: nat, a: nat)
    requires Shape(v') && s < |v.sections| && v.ps > 0 && Mapped(v, v', s) && WholePages(v.sections[s], v.ps)
    requires a < WORD && Holds(v.sections[s], a)
    ensures Page(v', a / v.ps) == s
  {
    WholePagesHold(v.sections[s], v.ps, a);
    PageInRange(v', a);
  }

  /** register_multipage. */
  lemma MappedBacking(v: Index, v': Index, added: set<Section>, s: nat)
    requires Agrees(v, added) && 0 < s < |v.sections| && PagesFree(v, s) && Mapped(v, v', s)
    requires WholePages(v.sections[s], v.ps) && v.sections[s].mr.Backing?
    ensures Agrees(v', added + {v.sections[s]})
  {
    MappedShape(v, v', s);
    var x := v.sections[s];
    forall a | 0 <= a < WORD ensures Right(added + {x}, a, Resolve(v', a)) {
      if Holds(x, a) {
        ResolveThere(v, v', s, a);
        assert x in added + {x} && Part(x, x);
      } else {
        ResolveElsewhere(v, v', s, a);
        RightKept(added, x, a, Resolve(v, a));
      }
    }
  }

  lemma RightKept(added: set<Section>, x: Section, a: nat, s: Section)
    requires Right(added, a, s) && !Holds(x, a)
    ensures Right(added + {x}, a, s)
  {
    if Hit(added, a) {
      var y :| y in added && Holds(y, a) && Part(s, y);
      assert y in added + {x};
    }
  }

  /** register_subpage, first section of its page: a table with every byte unassigned. */
  lemma MappedSubpage(v: Index, v': Index, added: set<Section>, s: nat)
    requires Agrees(v, added) && 0 < s < |v.sections| && PagesFree(v, s) && Mapped(v, v', s)
    requires WholePages(v.sections[s], v.ps) && v.sections[s].mr.Subpage? && v.sections[s].size == v.ps
    requires TableOk(v, v.sections[s].mr.table, v.sections[s].addr)
    requires forall o :: 0 <= o < v.ps ==> v.subs[v.sections[s].mr.table].sub[o] == PHYS_SECTION_UNASSIGNED
    ensures Agrees(v', added)
  {
    MappedShape(v, v', s);
    var x := v.sections[s];
    forall a | 0 <= a < WORD ensures Right(added, a, Resolve(v', a)) {
      if Holds(x, a) {
        ResolveThere(v, v', s, a);
        WholePagesHold(x, v.ps, a);
        PageInRange(v, a);
        assert Right(added, a, Resolve(v, a));
      } else {
        ResolveElsewhere(v, v', s, a);
      }
    }
  }

  /** A page led to a real region only because some range covers it. */
  lemma BackingPage(v: Index, added: set<Section>, a: nat)
    requires Agrees(v, added) && a < WORD && !Hit(added, a)
    ensures Page(v, a / v.ps) < |v.sections| && !v.sections[Page(v, a / v.ps)].mr.Backing?
  {
    PageInRange(v, a);
    assert PageOk(v, a / v.ps);
    assert Right(added, a, Resolve(v, a));
  }

  ghost predicate TableUsed(v: Index, t: nat) {
    t < |v.subs| && exists o :: 0 <= o < |v.subs[t].sub| && v.subs[t].sub[o] < |v.sections| &&
                                v.sections[v.subs[t].sub[o]].mr.Backing?
  }

  /** A page has a sub-page table only because some range covers part of it. */
  ghost predicate TablesUsed(v: Index, except: int) {
    forall p {:trigger Page(v, p)} :: 0 <= p < Span(v.levels) && Page(v, p) < |v.sections| && v.sections[Page(v, p)].mr.Subpage? ==>
      v.sections[Page(v, p)].mr.table == except || TableUsed(v, v.sections[Page(v, p)].mr.table)
  }

  /** Bytes [lo, hi) of table `t` now name section `s`. */
  ghost predicate Registered(v: Index, v': Index, t: nat, lo: nat, hi: nat, s: nat)
    requires t < |v.subs|
  {
    && |v'.subs| == |v.subs| && v' == v.(subs := v.subs[t := v'.subs[t]])
    && v'.subs[t].base == v.subs[t].base && |v'.subs[t].sub| == |v.subs[t].sub|
    && forall o :: 0 <= o < |v.subs[t].sub| ==> v'.subs[t].sub[o] == if lo <= o < hi then s else v.subs[t].sub[o]
  }

  lemma RegisteredShape(v: Index, v': Index, t: nat, lo: nat, hi: nat, s: nat)
    requires Shape(v) && t < |v.subs| && s < |v.sections| && Registered(v, v', t, lo, hi, s)
    ensures Shape(v')
  {
    SamePages(v, v');
    forall p | 0 <= p < Span(v'.levels) ensures PageOk(v', p) {
      assert PageOk(v, p);
    }
  }

  lemma RegisteredResolve(v: Index, v': Index, t: nat, lo: nat, hi: nat, s: nat, p: nat, a: nat)
    requires Shape(v) && Shape(v') && t < |v.subs| && s < |v.sections| && Registered(v, v', t, lo, hi, s)
    requires p < Span(v.levels) && 0 != Page(v, p) < |v.sections| && v.sections[Page(v, p)].mr == Subpage(t)
    requires lo < hi <= v.ps && v.sections[s].addr == p * v.ps + lo && v.sections[s].size == hi - lo
    requires a < WORD
    ensures Resolve(v', a) == if Holds(v.sections[s], a) then v.sections[s] else Resolve(v, a)
  {
    SamePages(v, v');
    var q := a / v.ps;
    PageInRange(v, a);
    assert PageOk(v, p) && PageOk(v, q);
    DivModEq(a, v.ps);
    TablePage(v, p, t);
    if q == p {
    } else {
      if q < p { Distribute(q, 1, v.ps); MulOrder(q + 1, p, v.ps); } else { Distribute(p, 1, v.ps); MulOrder(p + 1, q, v.ps); }
      if Page(v, q) != 0 && v.sections[Page(v, q)].mr == Subpage(t) {
        TablePage(v, q, t);
      }
    }
  }

  /** A table's base names the one page that leads to it. */
  lemma TablePage(v: Index, p: nat, t: nat)
    requires Shape(v) && p < Span(v.levels) && 0 != Page(v, p) < |v.sections| && v.sections[Page(v, p)].mr == Subpage(t)
    ensures t < |v.subs| && v.subs[t].base == p * v.ps && |v.subs[t].sub| == v.ps
  {
    assert PageOk(v, p);
    var x := v.sections[Page(v, p)];
    DivModEq(x.addr, v.ps);
    DivModUnique(v.ps, 1, 0, v.ps);
  }

  /** register_subpage, the byte range itself. */
  lemma RegisteredAgrees(v: Index, v': Index, added: set<Section>, t: nat, lo: nat, hi: nat, s: nat, p: nat)
    requires Agrees(v, added) && t < |v.subs| && s < |v.sections| && Registered(v, v', t, lo, hi, s)
    requires p < Span(v.levels) && 0 != Page(v, p) < |v.sections| && v.sections[Page(v, p)].mr == Subpage(t)
    requires lo < hi <= v.ps && v.sections[s].addr == p * v.ps + lo && v.sections[s].size == hi - lo
    requires v.sections[s].mr.Backing? && TablesUsed(v, t)
    ensures Agrees(v', added + {v.sections[s]}) && TablesUsed(v', -1)
  {
    RegisteredShape(v, v', t, lo, hi, s);
    var x := v.sections[s];
    forall a | 0 <= a < WORD ensures Right(added + {x}, a, Resolve(v', a)) {
      RegisteredResolve(v, v', t, lo, hi, s, p, a);
      if Holds(x, a) {
        assert x in added + {x} && Part(x, x);
      } else {
        RightKept(added, x, a, Resolve(v, a));
      }
    }
    SamePages(v, v');
    TablePage(v, p, t);
    assert v'.subs[t].sub[lo] == s;
    assert TableUsed(v', t);
    forall t': nat | TableUsed(v, t') && t' != t ensures TableUsed(v', t') {
      var o :| 0 <= o < |v.subs[t'].sub| && v.subs[t'].sub[o] < |v.sections| && v.sections[v.subs[t'].sub[o]].mr.Backing?;
      assert v'.subs[t'].sub[o] == v.subs[t'].sub[o];
    }
  }

  /** A page none of whose bytes is covered has no section at all. */
  lemma UncoveredPage(v: Index, added: set<Section>, p: nat)
    requires Agrees(v, added) && TablesUsed(v, -1) && p * v.ps + v.ps <= WORD && p < Span(v.levels)
    requires forall a :: p * v.ps <= a < p * v.ps + v.ps ==> !Hit(added, a)
    ensures Page(v, p) == PHYS_SECTION_UNASSIGNED
  {
    assert PageOk(v, p);
    DivModUnique(p * v.ps, p, 0, v.ps);
    BackingPage(v, added, p * v.ps);
    if Page(v, p) != PHYS_SECTION_UNASSIGNED {
      var a := TableHit(v, added, p);
    }
  }

  lemma TableHit(v: Index, added: set<Section>, p: nat) returns (a: nat)
    requires Agrees(v, added) && TablesUsed(v, -1) && p * v.ps + v.ps <= WORD && p < Span(v.levels)
    requires 0 != Page(v, p) < |v.sections| && v.sections[Page(v, p)].mr.Subpage?
    ensures p * v.ps <= a < p * v.ps + v.ps && Hit(added, a)
  {
    assert PageOk(v, p);
    var t := v.sections[Page(v, p)].mr.table;
    assert TableUsed(v, t);
    var o :| 0 <= o < |v.subs[t].sub| && v.subs[t].sub[o] < |v.sections| && v.sections[v.subs[t].sub[o]].mr.Backing?;
    TablePage(v, p, t);
    a := p * v.ps + o;
    DivModUnique(a, p, o, v.ps);
    assert Right(added, a, Resolve(v, a));
  }

  /** Pieces that make up `x` answer like `x`. */
  lemma PiecesMerge(v: Index, added: set<Section>, pieces: set<Section>, x: Section)
    requires Agrees(v, added + pieces) && x.mr.Backing?
    requires forall y :: y in pieces ==> Part(y, x)
    requires forall a :: Holds(x, a) ==> Hit(pieces, a)
    ensures Agrees(v, added + {x})
  {
    forall a | 0 <= a < WORD ensures Right(added + {x}, a, Resolve(v, a)) {
      var s := Resolve(v, a);
      assert Right(added + pieces, a, s);
      if Hit(added + {x}, a) {
        var y :| y in added + {x} && Holds(y, a);
        if y !in added { y :| y in pieces && Holds(y, a); }
        assert y in added + pieces;
      }
      if Hit(added + pieces, a) {
        var y :| y in added + pieces && Holds(y, a) && Part(s, y);
        var y' := if y in added then y else x;
        assert y' in added + {x} && Holds(y', a) && Part(s, y');
      }
    }
  }

  /** section_covers_addr: 64-bit arithmetic on the low half of the size. */
  predicate SectionCovers(s: Section, a: nat) {
    s.size >= WORD || (s.addr <= a && a <= (s.addr + s.size - 1) % WORD)
  }

  lemma CoversIsHolds(s: Section, a: nat)
    requires Valid(s) && a < WORD
    ensures SectionCovers(s, a) <==> Holds(s, a)
  {}

  /** The walk for address `a` ends at a section number of the table. */
  ghost predicate Findable(v: Index, a: nat) {
    v.ps > 0 && |v.sections| > 0 && Page(v, a / v.ps) < |v.sections|
  }

  /** The result of phys_page_find. */
  function Find(v: Index, a: nat): nat
    requires v.ps > 0
  {
    var w := Page(v, a / v.ps);
    if w < |v.sections| && SectionCovers(v.sections[w], a) then w else PHYS_SECTION_UNASSIGNED
  }

  /** While the index is exact, the coverage check never rejects a page's section. */
  lemma FindExact(v: Index, a: nat)
    requires Shape(v) && a < WORD
    ensures Find(v, a) == Page(v, a / v.ps)
  {
    PageInRange(v, a);
    var p := a / v.ps;
    assert PageOk(v, p);
    if Page(v, p) != PHYS_SECTION_UNASSIGNED {
      WholePagesHold(v.sections[Page(v, p)], v.ps, a);
      CoversIsHolds(v.sections[Page(v, p)], a);
    }
  }

  /** phys_page_compact preserves phys_page_find: a walk that strays reaches a section
      mapped elsewhere, and the coverage check rejects it. */
  lemma CompactionPreservesFind(v: Index, v': Index, a: nat)
    requires Shape(v) && v' == v.(nodes := v'.nodes, root := v'.root) && a < WORD
    requires Approximates(v.nodes, v.root, v'.nodes, v'.root, v.levels, 0)
    ensures Find(v', a) == Find(v, a)
    ensures Page(v', a / v.ps) < |v.sections|
  {
    FindExact(v, a);
    PageInRange(v, a);
    var p := a / v.ps;
    var w := Page(v', p);
    assert PageOk(v, p);
    if w != PHYS_SECTION_UNASSIGNED {
      assert Occurs(v.nodes, v.root, v.levels, 0, w);
      var q :| 0 <= q < Span(v.levels) && Walk(v.nodes, v.root, v.levels, q) == w;
      assert PageOk(v, q) && Page(v, q) == w;
      WholePagesHold(v.sections[w], v.ps, a);
      CoversIsHolds(v.sections[w], a);
    }
  }

  ghost predicate Apart(x: Section, added: set<Section>) {
    forall y :: y in added ==> Disjoint(x, y)
  }

  lemma ApartNotHit(x: Section, added: set<Section>, a: nat)
    requires Apart(x, added) && Holds(x, a)
    ensures !Hit(added, a)
  {}

  lemma FilledMapped(v: Index, v': Index, s: nat)
    requires v.ps > 0 && s < |v.sections| && v' == v.(nodes := v'.nodes, root := v'.root)
    requires Filled(v.nodes, v.root, v'.nodes, v'.root, v.levels, 0,
                    v.sections[s].addr / v.ps, v.sections[s].addr / v.ps + v.sections[s].size / v.ps, s)
    ensures Mapped(v, v', s)
  {
    forall p | 0 <= p < Span(v.levels)
      ensures Page(v', p) == if InPages(v.sections[s], v.ps, p) then s else Page(v, p)
    {
      assert Walk(v'.nodes, v'.root, v.levels, p) == Page(v', p);
    }
  }

  /** The pages of a whole-page section that meets no range are all free. */
  lemma ApartVacant(v: Index, added: set<Section>, x: Section)
    requires Agrees(v, added) && TablesUsed(v, -1) && Valid(x) && WholePages(x, v.ps) && Apart(x, added)
    ensures Vacant(v.nodes, v.root, v.levels, x.addr / v.ps, x.addr / v.ps + x.size / v.ps)
    ensures x.addr / v.ps + x.size / v.ps <= Span(v.levels)
    ensures x.size >= v.ps ==> x.size / v.ps > 0
  {
    var f, n := x.addr / v.ps, x.size / v.ps;
    DivModEq(x.size, v.ps);
    DivModEq(x.addr, v.ps);
    Distribute(f, n, v.ps);
    if f + n > Span(v.levels) {
      Distribute(Span(v.levels), 1, v.ps);
      MulOrder(Span(v.levels) + 1, f + n, v.ps);
    }
    forall p | f <= p < f + n ensures Walk(v.nodes, v.root, v.levels, p) == PHYS_SECTION_UNASSIGNED {
      MulOrder(f, p, v.ps);
      MulOrder(p + 1, f + n, v.ps);
      Distribute(p, 1, v.ps);
      forall a | p * v.ps <= a < p * v.ps + v.ps ensures !Hit(added, a) { ApartNotHit(x, added, a); }
      UncoveredPage(v, added, p);
      assert Page(v, p) == PHYS_SECTION_UNASSIGNED;
    }
  }

  lemma VacantFree(v: Index, x: Section)
    requires Shape(v)
    requires Vacant(v.nodes, v.root, v.levels, x.addr / v.ps, x.addr / v.ps + x.size / v.ps)
    ensures PagesFree(v.(sections := v.sections + [x]), |v.sections|)
  {
    var v1 := v.(sections := v.sections + [x]);
    SamePages(v, v1);
    forall p | 0 <= p < Span(v.levels) ensures Page(v1, p) != |v.sections| {
      assert PageOk(v, p);
    }
    forall p | 0 <= p < Span(v.levels) && InPages(x, v.ps, p) ensures Page(v1, p) == PHYS_SECTION_UNASSIGNED {
      assert Walk(v.nodes, v.root, v.levels, p) == Page(v1, p);
    }
  }

  /** The whole of register_multipage, on the index. */
  lemma RegisterBacking(v: Index, added: set<Section>, x: Section, v': Index)
    requires Agrees(v, added) && TablesUsed(v, -1) && Valid(x) && x.mr.Backing?
    requires WholePages(x, v.ps) && Apart(x, added)
    requires v' == v.(sections := v.sections + [x], nodes := v'.nodes, root := v'.root)
    requires Filled(v.nodes, v.root, v'.nodes, v'.root, v.levels, 0,
                    x.addr / v.ps, x.addr / v.ps + x.size / v.ps, |v.sections|)
    ensures Agrees(v', added + {x}) && TablesUsed(v', -1)
  {
    var v1, s := v.(sections := v.sections + [x]), |v.sections|;
    SectionAdded(v, added, x);
    ApartVacant(v, added, x);
    VacantFree(v, x);
    FilledMapped(v1, v', s);
    MappedBacking(v1, v', added, s);
    TablesUsedMapped(v, x, v', -1);
  }

  lemma TablesUsedMapped(v: Index, x: Section, v': Index, except: int)
    requires Shape(v) && TablesUsed(v, -1)
    requires x.mr.Subpage? ==> x.mr.table == except
    requires v' == v.(sections := v.sections + [x], nodes := v'.nodes, root := v'.root)
    requires Mapped(v.(sections := v.sections + [x]), v', |v.sections|)
    ensures TablesUsed(v', except)
  {
    var v1 := v.(sections := v.sections + [x]);
    SamePages(v, v1);
    forall p | 0 <= p < Span(v.levels) && Page(v', p) < |v'.sections| && v'.sections[Page(v', p)].mr.Subpage?
      ensures v'.sections[Page(v', p)].mr.table == except || TableUsed(v', v'.sections[Page(v', p)].mr.table)
    {
      assert PageOk(v, p);
      assert Page(v', p) == if InPages(x, v.ps, p) then |v.sections| else Page(v1, p);
      if !InPages(x, v.ps, p) {
        var t := v.sections[Page(v, p)].mr.table;
        assert TableUsed(v, t);
        var o :| 0 <= o < |v.subs[t].sub| && v.subs[t].sub[o] < |v.sections| && v.sections[v.subs[t].sub[o]].mr.Backing?;
        assert v'.sections[v'.subs[t].sub[o]].mr.Backing?;
      }
    }
  }

  lemma TableAdded(v: Index, added: set<Section>, t: SubTable)
    requires Agrees(v, added) && TablesUsed(v, -1)
    ensures Agrees(v.(subs := v.subs + [t]), added) && TablesUsed(v.(subs := v.subs + [t]), -1)
  {
    var v' := v.(subs := v.subs + [t]);
    SamePages(v, v');
    forall p | 0 <= p < Span(v.levels) ensures PageOk(v', p) {
      assert PageOk(v, p);
    }
    forall a | 0 <= a < WORD ensures Right(added, a, Resolve(v', a)) {
      PageInRange(v, a);
      assert PageOk(v, a / v.ps);
      assert Resolve(v', a) == Resolve(v, a);
    }
    forall u: nat | TableUsed(v, u) ensures TableUsed(v', u) {
      var o :| 0 <= o < |v.subs[u].sub| && v.subs[u].sub[o] < |v.sections| && v.sections[v.subs[u].sub[o]].mr.Backing?;
      assert v'.subs[u].sub[o] == v.subs[u].sub[o];
    }
  }

  /** The table and section that register_subpage creates for a page without one. */
  function NewTable(base: nat, ps: nat): SubTable {
    SubTable(base, seq(ps, _ => PHYS_SECTION_UNASSIGNED))
  }

  function TableSection(v: Index, p: nat): Section {
    Section(Subpage(|v.subs|), p * v.ps, 0, v.ps)
  }

  lemma RegisterTable(v: Index, added: set<Section>, p: nat, v': Index)
    requires Agrees(v, added) && TablesUsed(v, -1) && p * v.ps + v.ps <= WORD && p < Span(v.levels)
    requires Page(v, p) == PHYS_SECTION_UNASSIGNED
    requires v' == v.(subs := v.subs + [NewTable(p * v.ps, v.ps)], sections := v.sections + [TableSection(v, p)],
                      nodes := v'.nodes, root := v'.root)
    requires Filled(v.nodes, v.root, v'.nodes, v'.root, v.levels, 0, p, p + 1, |v.sections|)
    ensures Agrees(v', added) && TablesUsed(v', |v.subs|)
    ensures Page(v', p) == |v.sections|
  {
    var x, s := TableSection(v, p), |v.sections|;
    var v1 := v.(subs := v.subs + [NewTable(p * v.ps, v.ps)]);
    var v2 := v1.(sections := v.sections + [x]);
    DivModUnique(x.addr, p, 0, v.ps);
    DivModUnique(v.ps, 1, 0, v.ps);
    TableAdded(v, added, NewTable(p * v.ps, v.ps));
    SectionAdded(v1, added, x);
    assert Vacant(v1.nodes, v1.root, v1.levels, p, p + 1) by { SamePages(v, v1); assert Page(v, p) == Walk(v1.nodes, v1.root, v1.levels, p); }
    VacantFree(v1, x);
    FilledMapped(v2, v', s);
    MappedSubpage(v2, v', added, s);
    TablesUsedMapped(v1, x, v', |v.subs|);
  }

  /** Address arithmetic of one page. */
  lemma PageArith(a: nat, ps: nat)
    requires ps > 0 && WORD % ps == 0 && a < WORD
    ensures a / ps >= 0 && a == a / ps * ps + a % ps && 0 <= a % ps < ps
    ensures (a - a % ps) / ps == a / ps
    ensures a / ps * ps + ps <= WORD
  {
    var p, n := a / ps, WORD / ps;
    DivModEq(a, ps);
    DivModEq(WORD, ps);
    if p < 0 { MulOrder(p, -1, ps); }
    DivModUnique(a - a % ps, p, 0, ps);
    if p + 1 > n { MulOrder(n, p, ps); }
    MulOrder(p + 1, n, ps);
    Distribute(p, 1, ps);
  }

  /** The page of a section that meets no range is free or already has a table. */
  lemma PageBase(v: Index, added: set<Section>, x: Section)
    requires Agrees(v, added) && Valid(x) && Apart(x, added)
    ensures var p := x.addr / v.ps;
            var base := x.addr - x.addr % v.ps;
            && 0 <= p < Span(v.levels)
            && Findable(v, base) && Find(v, base) == Page(v, p)
            && Page(v, p) < |v.sections| && v.sections[0] == DUMMY
            && (v.sections[Page(v, p)].mr.Subpage? || Page(v, p) == PHYS_SECTION_UNASSIGNED)
  {
    var p, base := x.addr / v.ps, x.addr - x.addr % v.ps;
    PageArith(x.addr, v.ps);
    PageInRange(v, x.addr);
    assert PageOk(v, p);
    ApartNotHit(x, added, x.addr);
    BackingPage(v, added, x.addr);
    FindExact(v, base);
  }

  lemma FreeIsVacant(v: Index, p: nat)
    requires Page(v, p) == PHYS_SECTION_UNASSIGNED
    ensures Vacant(v.nodes, v.root, v.levels, p, p + 1)
  {}

  /** Bytes of a page's table named by a section appended to the table of sections. */
  lemma RegisterBytes(v: Index, v': Index, added: set<Section>, x: Section, t: nat)
    requires Agrees(v, added) && TablesUsed(v, t) && Valid(x) && x.mr.Backing? && x.addr % v.ps + x.size <= v.ps
    requires x.addr / v.ps < Span(v.levels) && 0 != Page(v, x.addr / v.ps) < |v.sections|
    requires v.sections[Page(v, x.addr / v.ps)].mr == Subpage(t)
    requires t < |v.subs| && v'.sections == v.sections + [x]
    requires Registered(v.(sections := v'.sections), v', t, x.addr % v.ps, x.addr % v.ps + x.size, |v.sections|)
    ensures Agrees(v', added + {x}) && TablesUsed(v', -1)
  {
    var v1, p := v.(sections := v'.sections), x.addr / v.ps;
    SectionAdded(v, added, x);
    SamePages(v, v1);
    PageArith(x.addr, v.ps);
    TablesUsedGrow(v, v1, t);
    RegisteredAgrees(v1, v', added, t, x.addr % v.ps, x.addr % v.ps + x.size, |v.sections|, p);
  }

  lemma TablesUsedGrow(v: Index, v': Index, t: int)
    requires Shape(v) && TablesUsed(v, t) && |v.sections| <= |v'.sections|
    requires v' == v.(sections := v'.sections) && v'.sections[..|v.sections|] == v.sections
    ensures TablesUsed(v', t)
  {
    SamePages(v, v');
    forall i | 0 <= i < |v.sections| ensures v'.sections[i] == v.sections[i] {
      assert v'.sections[i] == v'.sections[..|v.sections|][i];
    }
    forall u: nat | TableUsed(v, u) ensures TableUsed(v', u) {
      var o :| 0 <= o < |v.subs[u].sub| && v.subs[u].sub[o] < |v.sections| && v.sections[v.subs[u].sub[o]].mr.Backing?;
      assert v'.subs[u].sub[o] == v.subs[u].sub[o];
    }
    forall p | 0 <= p < Span(v.levels) ensures Page(v', p) < |v.sections| { assert PageOk(v, p); }
  }

  /** The low bits of an address: its offset in its page (SUBPAGE_IDX). */
  function InPage(a: nat, ps: nat): (r: nat)
    requires ps > 0
    ensures r < ps
  {
    a % ps
  }
}
