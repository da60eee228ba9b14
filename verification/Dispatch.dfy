/** The physical dispatch map of an address space (qemu/exec.c). */
module Dispatch {
  import opened Arithmetic
  import opened FlatMap
  import opened RadixCompact
  import opened RadixMap
  import opened Words
  import opened Wrappers

  /** P_L2_LEVELS for a 64-bit address space. */
  function Levels(pageBits: nat): nat
    requires 1 <= pageBits <= 16
  {
    (64 - pageBits - 1) / 9 + 1
  }

  lemma {:induction false} SpanIsPow2(n: nat)
    ensures Span(n) == Pow2(9 * n)
  {
    if n > 0 {
      SpanIsPow2(n - 1);
      Pow2Add(9, 9 * (n - 1));
      assert Pow2(9) == 512;
    }
  }

  lemma Pow2Of64()
    ensures Pow2(16) == 0x1_0000 && Pow2(64) == WORD
  {
    assert Pow2(8) == 256;
    Pow2Add(8, 8);
    Pow2Add(16, 16);
    Pow2Add(32, 32);
  }

  /** The radix map has a slot for every page of the address space. */
  lemma LevelsSuffice(pageBits: nat)
    requires 1 <= pageBits <= 16
    ensures 6 <= Levels(pageBits) <= 7
    ensures WORD <= Span(Levels(pageBits)) * Pow2(pageBits)
    ensures Pow2(pageBits) <= 0x1_0000 && WORD % Pow2(pageBits) == 0
  {
    var l := Levels(pageBits);
    assert 6 <= l <= 7 && 64 <= 9 * l + pageBits;
    SpanIsPow2(l);
    Pow2Of64();
    hide Pow2, Span, Levels;
    Pow2Add(9 * l, pageBits);
    Pow2Mono(64, 9 * l + pageBits);
    Pow2Mono(pageBits, 16);
    Pow2Add(64 - pageBits, pageBits);
    DivModUnique(WORD, Pow2(64 - pageBits), 0, Pow2(pageBits));
  }

  class AddressSpaceDispatch {
    const pageBits: nat
    var physMap: Entry
    var nodes: seq<Node>
    var nodesAlloc: nat
    var allocHint: nat
    var sections: seq<Section>
    var subs: seq<SubTable>
    var mru: Option<nat>
    /** Where each node sits, the map as it was before compaction, the ranges added. */
    ghost var info: seq<Place>
    ghost var nodes0: seq<Node>
    ghost var root0: Entry
    ghost var added: set<Section>

    ghost function View(): Index
      requires 1 <= pageBits <= 16
      reads this
    {
      Index(Pow2(pageBits), Levels(pageBits), nodes, physMap, sections, subs)
    }

    /** The radix map is sound, and each section paid for at most 13 nodes. */
    ghost predicate TreeOk(paid: int)
      requires 1 <= pageBits <= 16
      reads this
    {
      && Ok(nodes, info) && Uncompacted(nodes)
      && physMap.skip == 1 && EntryOk(info, physMap, Levels(pageBits), 0)
      && |nodes| <= 13 * paid && paid < Pow2(pageBits)
    }

    /** The state between two calls of flatview_add_to_dispatch. */
    ghost predicate Building()
      reads this
    {
      && 1 <= pageBits <= 16
      && TreeOk(|sections| - 1)
      && Agrees(View(), added) && TablesUsed(View(), -1)
      && mru == None
    }

    /** phys_map_node_alloc; the two asserts are the source's. */
    method NodeAlloc(level: nat, ghost b: nat) returns (ret: nat)
      requires Ok(nodes, info) && Uncompacted(nodes)
      requires |nodes| < nodesAlloc && |nodes| < PHYS_MAP_NODE_NIL && Aligned(b, level + 1)
      modifies this`nodes, this`info
      ensures ret == old(|nodes|) == |nodes| - 1
      ensures Ok(nodes, info) && Uncompacted(nodes)
      ensures info == old(info) + [Place(level, b)] && nodes[ret] == FreshNode(level == 0)
      ensures ChangedBelow(old(nodes), old(info), nodes, info, level + 1, b)
      ensures EntryOk(info, Entry(1, ret), level + 1, b)
      ensures Filled(old(nodes), Entry(1, PHYS_MAP_NODE_NIL), nodes, Entry(1, ret), level + 1, b, 0, 0, 0)
    {
      FreshNodeOk(nodes, info, level, b);
      ret := |nodes|;
      assert ret != PHYS_MAP_NODE_NIL;
      assert ret != nodesAlloc;
      nodes := nodes + [FreshNode(level == 0)];
      info := info + [Place(level, b)];
    }

    method FillSlot(k: nat, j: nat, index: nat, nb: nat, leaf: nat, level: nat, ghost b: nat,
                    ghost na: seq<Node>, ghost lo: nat, ghost start: nat)
      returns (index': nat, nb': nat)
      requires Ok(nodes, info) && Uncompacted(nodes)
      requires k < |nodes| && info[k] == Place(level, b) && j < P_L2_SIZE
      requires SlotBase(b, j, level) <= index < SlotBase(b, j, level) + Span(level)
      requires nb > 0 && 0 < leaf < PHYS_MAP_NODE_NIL && lo <= index
      requires start <= index && (index == start || index == SlotBase(b, j, level))
      requires Uncut(nodes, nodes[k][j], level, SlotBase(b, j, level), start, index + nb)
      requires Filled(na, Entry(1, k), nodes, Entry(1, k), level + 1, b, lo, index, leaf)
      requires |nodes| + SlotBound(level, SlotBase(b, j, level), index, nb) <= Min(nodesAlloc, PHYS_MAP_NODE_NIL)
      modifies this`nodes, this`info
      ensures Ok(nodes, info) && Uncompacted(nodes)
      ensures ChangedBelow(old(nodes), old(info), nodes, info, level + 1, b)
      ensures index' == Min(index + nb, SlotBase(b, j, level) + Span(level)) && index' + nb' == index + nb
      ensures Filled(na, Entry(1, k), nodes, Entry(1, k), level + 1, b, lo, index', leaf)
      ensures OneSlot(old(nodes), old(info), nodes, k, j)
      ensures |nodes| <= old(|nodes|) + SlotBound(level, SlotBase(b, j, level), index, nb)
      decreases level, 0
    {
      hide Ok, Uncompacted, ChangedBelow, Filled, Uncut, OneSlot, EntryOk, Walk, Span, SlotBase, Aligned;
      ghost var n0, i0 := nodes, info;
      ghost var sb := SlotBase(b, j, level);
      NodeAligned(nodes, info, k);
      SlotInside(level, b, j);
      var step := Span(level);
      BottomLevel(index);
      if Aligned(index, level) && nb >= step {
        AlignedIn(index, sb, level);
        FillWhole(na, n0, i0, k, j, lo, index, leaf);
        FilledNothing(n0, i0, n0[k][j], level, sb, 0, 0);
        OneSlotChanged(n0, i0, n0, i0, k, j, Entry(0, leaf));
        nodes := nodes[k := nodes[k][j := Entry(0, leaf)]];
        index', nb' := index + step, nb - step;
      } else {
        var e := nodes[k][j];
        SlotIsLink(nodes, info, k, j, start, index, nb);
        e, index', nb' := SetLevel(e, index, nb, leaf, level - 1, sb, start);
        OneSlotChanged(n0, i0, nodes, info, k, j, e);
        FillPart(na, n0, i0, nodes, info, k, j, e, lo, index, index', leaf);
        nodes := nodes[k := nodes[k][j := e]];
      }
    }

    /** The first step of phys_page_set_level: an empty link gets a fresh node. */
    method EnsureNode(lp: Entry, level: nat, ghost b: nat, ghost start: nat, ghost end: nat) returns (lp': Entry)
      requires Ok(nodes, info) && Uncompacted(nodes)
      requires lp.skip == 1 && EntryOk(info, lp, level + 1, b) && Aligned(b, level + 1)
      requires Uncut(nodes, lp, level + 1, b, start, end) && |nodes| < Min(nodesAlloc, PHYS_MAP_NODE_NIL)
      modifies this`nodes, this`info
      ensures Ok(nodes, info) && Uncompacted(nodes) && |nodes| <= old(|nodes|) + 1
      ensures ChangedBelow(old(nodes), old(info), nodes, info, level + 1, b)
      ensures lp'.skip == 1 && EntryOk(info, lp', level + 1, b) && lp'.ptr < |nodes| && lp'.ptr != PHYS_MAP_NODE_NIL
      ensures Filled(old(nodes), lp, nodes, lp', level + 1, b, 0, 0, 0)
      ensures UncutFrom(nodes, nodes[lp'.ptr], level, b, 0, start, end)
    {
      hide Ok, Uncompacted, ChangedBelow, Filled, Uncut, UncutFrom, EntryOk, Aligned;
      lp' := lp;
      OkBound(nodes, info);
      FilledNothing(nodes, info, lp, level + 1, b, 0, 0);
      if lp.skip != 0 && lp.ptr == PHYS_MAP_NODE_NIL {
        var ret := NodeAlloc(level, b);
        lp' := lp.(ptr := ret);
        OkBound(nodes, info);
        FreshUncut(nodes, level, b, start, end);
      } else {
        LinkPlace(nodes, info, lp.ptr, level, b);
        UncutLink(nodes, lp, level + 1, b, start, end);
      }
    }

    method SetLevel(lp: Entry, index: nat, nb: nat, leaf: nat, level: nat, ghost b: nat, ghost start: nat)
      returns (lp': Entry, index': nat, nb': nat)
      requires Ok(nodes, info) && Uncompacted(nodes)
      requires lp.skip == 1 && EntryOk(info, lp, level + 1, b) && Aligned(b, level + 1)
      requires b <= index < b + Span(level + 1) && nb > 0 && 0 < leaf < PHYS_MAP_NODE_NIL
      requires start <= index && (index == start || index == b)
      requires Uncut(nodes, lp, level + 1, b, start, index + nb)
      requires |nodes| + AllocBound(level, b, index, nb) <= Min(nodesAlloc, PHYS_MAP_NODE_NIL)
      modifies this`nodes, this`info
      ensures Ok(nodes, info) && Uncompacted(nodes)
      ensures ChangedBelow(old(nodes), old(info), nodes, info, level + 1, b)
      ensures lp'.skip == 1 && EntryOk(info, lp', level + 1, b)
      ensures index' == Min(index + nb, b + Span(level + 1)) && index' + nb' == index + nb
      ensures Filled(old(nodes), lp, nodes, lp', level + 1, b, index, index', leaf)
      ensures |nodes| <= old(|nodes|) + AllocBound(level, b, index, nb)
      decreases level, 1
    {
      hide Ok, Uncompacted, ChangedBelow, Filled, Uncut, UncutFrom, OneSlot, EntryOk, Walk, Span, SlotBase, Aligned,
           AllocBound, SlotBound, Slot;
      index', nb' := index, nb;
      ghost var n0, i0, end := nodes, info, index + nb;
      lp' := EnsureNode(lp, level, b, start, end);
      var k := lp'.ptr;
      ghost var na, ia := nodes, info;
      FilledNothing(na, ia, lp', level + 1, b, index, leaf);
      var j := Slot(index, level);
      ghost var j0 := j;
      UncutLater(nodes, nodes[k], level, b, j, start, end);
      SlotSelects(index, level, b);
      SlotInside(level, b, j);
      while nb' != 0 && j < P_L2_SIZE
        invariant Ok(nodes, info) && Uncompacted(nodes)
        invariant ChangedBelow(na, ia, nodes, info, level + 1, b)
        invariant EntryOk(info, lp', level + 1, b)
        invariant j0 <= j <= P_L2_SIZE && k < |nodes| && UncutFrom(nodes, nodes[k], level, b, j, start, end)
        invariant index' == Min(index + nb, if j == j0 then index else SlotBase(b, j, level))
        invariant index' + nb' == index + nb && index' <= b + Span(level + 1)
        invariant Filled(na, lp', nodes, lp', level + 1, b, index, index', leaf)
        invariant nb' > 0 ==> |nodes| <= |n0| + 1 + (if j > j0 && !Aligned(index, level) then level else 0)
        invariant |nodes| <= |n0| + AllocBound(level, b, index, nb)
      {
        ghost var n1, i1 := nodes, info;
        LinkPlace(nodes, info, k, level, b);
        SlotInside(level, b, j);
        SlotCost(level, b, index, nb, j, index', nb', |nodes| - |n0|);
        UncutSlot(nodes, nodes[k], level, b, j, start, end);
        index', nb' := FillSlot(k, j, index', nb', leaf, level, b, na, index, start);
        OkBound(nodes, info);
        UncutRest(n1, i1, nodes, k, j, start, end);
        ChangedTrans(na, ia, n1, i1, nodes, info, level + 1, b);
        KeepsPlaces(n1, i1, nodes, info, lp', level + 1, b);
        j := j + 1;
      }
      ChangedTrans(n0, i0, na, ia, nodes, info, level + 1, b);
      FilledTrans(n0, lp, na, lp', nodes, lp', level + 1, b, 0, index, index', leaf);
    }

    /** phys_page_set: reserve, then fill. The reservation covers what filling allocates. */
    method PhysPageSet(index: nat, nb: nat, leaf: nat)
      requires 1 <= pageBits <= 16 && TreeOk(|sections| - 2)
      requires nb > 0 && index + nb <= Span(Levels(pageBits)) && 0 < leaf < PHYS_MAP_NODE_NIL
      requires Uncut(nodes, physMap, Levels(pageBits), 0, index, index + nb)
      requires |sections| <= Pow2(pageBits)
      modifies this`nodes, this`info, this`physMap, this`nodesAlloc, this`allocHint
      ensures TreeOk(|sections| - 1)
      ensures |nodes| <= old(|nodes|) + 2 * Levels(pageBits) - 1
      ensures Filled(old(nodes), old(physMap), nodes, physMap, Levels(pageBits), 0, index, index + nb, leaf)
    {
      hide Ok, Uncompacted, Filled, Uncut, EntryOk, Walk, Span, Pow2;
      var levels := Levels(pageBits);
      LevelsSuffice(pageBits);
      NodeReserve(3 * levels);
      AlignedZero(levels);
      var index', nb';
      physMap, index', nb' := SetLevel(physMap, index, nb, leaf, levels - 1, 0, index);
    }

    lemma FreeUncut(index: nat, nb: nat)
      requires nb > 0 && 1 <= pageBits <= 16 && TreeOk(|sections| - 1) && Vacant(nodes, physMap, Levels(pageBits), index, index + nb)
      ensures Uncut(nodes, physMap, Levels(pageBits), 0, index, index + nb)
    {
      hide Ok, Uncompacted, EntryOk, Walk, Span, Uncut;
      AlignedZero(Levels(pageBits));
      VacantUncut(nodes, info, physMap, Levels(pageBits), 0, index, index + nb);
    }

    /** phys_map_node_reserve. */
    method NodeReserve(n: nat)
      modifies this`nodesAlloc, this`allocHint
      ensures |nodes| + n <= nodesAlloc
      ensures nodesAlloc >= old(nodesAlloc)
      ensures |nodes| + n <= old(nodesAlloc) ==> nodesAlloc == old(nodesAlloc) && allocHint == old(allocHint)
      ensures |nodes| + n > old(nodesAlloc) ==> allocHint == nodesAlloc == if old(allocHint) > |nodes| + n then old(allocHint) else |nodes| + n
    {
      if |nodes| + n > nodesAlloc {
        nodesAlloc := if allocHint > |nodes| + n then allocHint else |nodes| + n;
        allocHint := nodesAlloc;
      }
    }

    /** phys_page_find. */
    method PhysPageFind(addr: nat) returns (s: nat)
      requires 1 <= pageBits <= 16 && Ok(nodes, info) && EntryOk(info, physMap, Levels(pageBits), 0)
      requires Findable(View(), addr)
      ensures s == Find(View(), addr)
    {
      hide Ok, EntryOk, Span, Pow2, Below;
      var lp := physMap;
      var index := addr / Pow2(pageBits);
      var i: int := Levels(pageBits);
      ghost var b := 0;
      ghost var w := Page(View(), index);
      while lp.skip != 0 && i - lp.skip >= 0
        invariant i >= 0 && EntryOk(info, lp, i, b) && Walk(nodes, lp, i, index) == w
        decreases i
      {
        i := i - lp.skip;
        if lp.ptr == PHYS_MAP_NODE_NIL {
          s := PHYS_SECTION_UNASSIGNED;
          return;
        }
        ghost var k := lp.ptr;
        LinkStep(nodes, info, lp, i + lp.skip, b, Slot(index, i));
        lp := nodes[lp.ptr][Slot(index, i)];
        b := SlotBase(info[k].base, Slot(index, i), i);
      }
      s := if SectionCovers(sections[lp.ptr], addr) then lp.ptr else PHYS_SECTION_UNASSIGNED;
    }

    /** register_multipage; `ok` is false when phys_section_add would abort. */
    method RegisterMultipage(x: Section) returns (ok: bool)
      requires Building() && Valid(x) && x.mr.Backing? && Apart(x, added)
      requires WholePages(x, Pow2(pageBits)) && x.size >= Pow2(pageBits)
      modifies this
      ensures ok <==> old(|sections|) < Pow2(pageBits)
      ensures !ok ==> |sections| == Pow2(pageBits)
      ensures ok ==> Building() && added == old(added) + {x} && |sections| == old(|sections|) + 1
    {
      hide Ok, Uncompacted, Filled, EntryOk, Walk, Span, Pow2, Agrees, TablesUsed, Vacant, Apart, WholePages;
      ok := |sections| < Pow2(pageBits);
      if ok {
        ghost var v := View();
        ApartVacant(v, added, x);
        LevelsSuffice(pageBits);
        FreeUncut(x.addr / Pow2(pageBits), x.size / Pow2(pageBits));
        sections := sections + [x];
        PhysPageSet(x.addr / Pow2(pageBits), x.size / Pow2(pageBits), |sections| - 1);
        RegisterBacking(v, added, x, View());
        added := added + {x};
      }
    }

    /** First half of register_subpage: find the page's sub-page table or create it.
        The first assert is the source's. */
    method SubpageFor(x: Section) returns (ok: bool, t: nat)
      requires Building() && Valid(x) && x.mr.Backing? && Apart(x, added)
      modifies this
      ensures ok <== old(|sections|) < Pow2(pageBits)
      ensures !ok ==> |sections| == Pow2(pageBits)
      ensures ok ==>
                && 1 <= pageBits <= 16 && TreeOk(|sections| - 1) && mru == None && added == old(added)
                && Agrees(View(), added) && TablesUsed(View(), t) && |sections| <= old(|sections|) + 1
                && HasTable(View(), x.addr, t)
    {
      hide Ok, Uncompacted, Filled, EntryOk, Walk, Span, Pow2, Agrees, TablesUsed, Vacant, Apart, Findable;
      var ps := Pow2(pageBits);
      ghost var v, p := View(), x.addr / ps;
      PageBase(v, added, x);
      LevelsSuffice(pageBits);
      PageArith(x.addr, ps);
      var base := x.addr - x.addr % ps;
      var existing := PhysPageFind(base);
      assert sections[existing].mr.Subpage? || sections[existing].mr.Unassigned?;
      if !sections[existing].mr.Subpage? {
        t := |subs|;
        if |sections| >= ps { return false, t; }
        FreeIsVacant(v, p);
        FreeUncut(p, 1);
        subs := subs + [NewTable(base, ps)];
        sections := sections + [Section(Subpage(t), base, 0, ps)];
        PhysPageSet(base / ps, 1, |sections| - 1);
        RegisterTable(v, added, p, View());
      } else {
        t := sections[existing].mr.table;
        TablesUsedWeaken(v, t);
      }
      TableThere(View(), added, x.addr, t);
      ok := true;
    }

    /** register_subpage, for a section inside one page. */
    method RegisterSubpage(x: Section) returns (ok: bool)
      requires Building() && Valid(x) && x.mr.Backing? && Apart(x, added)
      requires InPage(x.addr, Pow2(pageBits)) + x.size <= Pow2(pageBits)
      modifies this
      ensures ok <== old(|sections|) + 2 <= Pow2(pageBits)
      ensures !ok ==> |sections| == Pow2(pageBits)
      ensures ok ==> Building() && added == old(added) + {x} && |sections| <= old(|sections|) + 2
    {
      hide Ok, Uncompacted, Filled, EntryOk, Walk, Span, Pow2, Agrees, TablesUsed, Vacant, Apart;
      var t;
      ok, t := SubpageFor(x);
      if !ok || |sections| >= Pow2(pageBits) { return false; }
      ghost var v1 := View();
      var ps := Pow2(pageBits);
      sections := sections + [x];
      var start := x.addr % ps;
      var r := SubpageRegister(t, start, start + x.size - 1, |sections| - 1);
      RegisterBytes(v1, View(), added, x, t);
      added := added + {x};
    }

    /** subpage_register. */
    method SubpageRegister(t: nat, start: nat, end: nat, section: nat) returns (r: int)
      requires t < |subs| && |subs[t].sub| == Pow2(pageBits)
      modifies this`subs
      ensures r == if start >= Pow2(pageBits) || end >= Pow2(pageBits) then -1 else 0
      ensures r == -1 ==> subs == old(subs)
      ensures |subs| == |old(subs)| && subs == old(subs)[t := subs[t]]
      ensures subs[t].base == old(subs)[t].base && |subs[t].sub| == |old(subs)[t].sub|
      ensures r == 0 ==> forall o :: 0 <= o < |subs[t].sub| ==>
                subs[t].sub[o] == if start <= o <= end then section else old(subs)[t].sub[o]
    {
      if start >= Pow2(pageBits) || end >= Pow2(pageBits) { return -1; }
      var idx := start;
      while idx <= end
        invariant start <= idx && (idx <= end + 1 || idx == start)
        invariant |subs| == |old(subs)| && subs == old(subs)[t := subs[t]]
        invariant subs[t].base == old(subs)[t].base && |subs[t].sub| == |old(subs)[t].sub|
        invariant forall o :: 0 <= o < |subs[t].sub| ==>
                    subs[t].sub[o] == if start <= o < idx then section else old(subs)[t].sub[o]
      {
        subs := subs[t := subs[t].(sub := subs[t].sub[idx := section])];
        idx := idx + 1;
      }
      r := 0;
    }

    /** One piece of flatview_add_to_dispatch has been registered: either it was the
        last one, or the section still has a remainder. */
    ghost predicate Progress(x: Section, before: set<Section>, done: bool, pieces: set<Section>, remain: Section)
      reads this
    {
      && Building()
      && added == (if done then before + {x} else before + pieces)
      && (!done ==> Split(x, pieces, remain))
    }

    /** Register the bytes up to the first page boundary. */
    method AddHead(x: Section) returns (ok: bool, done: bool, remain: Section, ghost pieces: set<Section>)
      requires Building() && Valid(x) && x.mr.Backing? && Apart(x, added)
      modifies this
      ensures ok <== old(|sections|) + 2 <= Pow2(pageBits)
      ensures !ok ==> |sections| == Pow2(pageBits)
      ensures ok ==> Progress(x, old(added), done, pieces, remain) && |sections| <= old(|sections|) + 2
      ensures ok && !done ==> InPage(remain.addr, Pow2(pageBits)) == 0
    {
      hide Building, Apart, Split, Complete, PageAlign, InPage, Pow2;
      var ps := Pow2(pageBits);
      ParamsOk();
      SplitStart(x);
      ok, done, remain, pieces := true, false, x, {};
      assert added + pieces == added;
      if InPage(x.addr, ps) != 0 {
        var left := (PageAlign(x.addr, ps) - x.addr) % WORD;
        LeftInPage(x.addr, ps);
        var now := x.(size := Min(left, x.size));
        SplitStep(x, added, pieces, x, now.size);
        ok := RegisterSubpage(now);
        if !ok { return; }
        pieces := pieces + {now};
        assert pieces == {now};
        if x.size == now.size {
          Finish(x, old(added), pieces);
          done := true;
        } else {
          remain := Advance(x, now.size);
        }
      }
    }

    /** Register the whole pages of the remainder. */
    method AddWhole(x: Section, rest: Section, ghost before: set<Section>, ghost piecesIn: set<Section>)
      returns (ok: bool, done: bool, remain: Section, ghost pieces: set<Section>)
      requires Progress(x, before, false, piecesIn, rest) && Valid(x) && x.mr.Backing? && Apart(x, before)
      requires InPage(rest.addr, Pow2(pageBits)) == 0
      modifies this
      ensures ok <== old(|sections|) + 1 <= Pow2(pageBits)
      ensures !ok ==> |sections| == Pow2(pageBits)
      ensures ok ==> Progress(x, before, done, pieces, remain) && |sections| <= old(|sections|) + 1
      ensures ok && !done ==> InPage(remain.addr, Pow2(pageBits)) == 0 && remain.size < Pow2(pageBits)
    {
      hide Building, Apart, Split, Complete, InPage, Pow2, WholePages;
      var ps := Pow2(pageBits);
      ok, done, remain, pieces := true, false, rest, piecesIn;
      if rest.size >= ps {
        var now := rest.(size := rest.size - InPage(rest.size, ps));
        WholePart(rest, ps);
        SplitStep(x, before, pieces, rest, now.size);
        ok := RegisterMultipage(now);
        if !ok { return; }
        pieces := pieces + {now};
        assert before + pieces == added;
        if rest.size == now.size {
          Finish(x, before, pieces);
          done := true;
        } else {
          remain := Advance(rest, now.size);
        }
      }
    }

    /** flatview_add_to_dispatch. `ok` is false when the table of sections overflows,
        where the source aborts; five free section numbers are always enough. */
    method FlatviewAddToDispatch(x: Section) returns (ok: bool)
      requires Building() && Valid(x) && x.mr.Backing? && Apart(x, added)
      modifies this
      ensures ok <== old(|sections|) + 5 <= Pow2(pageBits)
      ensures !ok ==> |sections| == Pow2(pageBits)
      ensures ok ==> Building() && added == old(added) + {x} && |sections| <= old(|sections|) + 5
    {
      hide Building, Apart, Complete, InPage, Pow2;
      var done, remain;
      ghost var pieces;
      ok, done, remain, pieces := AddHead(x);
      if !ok || done { return; }
      ok, done, remain, pieces := AddWhole(x, remain, old(added), pieces);
      if !ok || done { return; }
      SplitStep(x, old(added), pieces, remain, remain.size);
      ok := RegisterSubpage(remain);
      if !ok { return; }
      assert old(added) + (pieces + {remain}) == added;
      Finish(x, old(added), pieces + {remain});
    }

    lemma ParamsOk()
      requires Building()
      ensures 1 <= pageBits <= 16 && WORD % Pow2(pageBits) == 0
    {
      LevelsSuffice(pageBits);
    }

    ghost method Finish(x: Section, before: set<Section>, pieces: set<Section>)
      requires Building() && x.mr.Backing? && added == before + pieces && Complete(x, pieces)
      modifies this`added
      ensures Building() && added == before + {x}
    {
      PiecesMerge(View(), before, pieces, x);
      added := before + {x};
    }

    /** phys_page_compact. */
    method PhysPageCompact(lp: Entry, ghost l: nat, ghost b: nat) returns (lp': Entry)
      requires 1 <= pageBits <= 16 && Ok(nodes, info) && EntryOk(info, lp, l, b) && lp.skip != 0
      modifies this`nodes
      ensures |nodes| == |old(nodes)|
      ensures Ok(nodes, info) && EntryOk(info, lp', l, b)
      ensures ChangedBelow(old(nodes), info, nodes, info, l, b)
      ensures Approximates(old(nodes), lp, nodes, lp', l, b)
      ensures lp'.ptr == PHYS_MAP_NODE_NIL <==> lp.ptr == PHYS_MAP_NODE_NIL
      ensures Packed(nodes, lp', l)
      decreases l
    {
      hide Packed, PackedUpTo, Ok, EntryOk, ChangedBelow, Approximates, NodeApproximates, Walk, Span, SlotBase, Below, Levels;
      lp' := lp;
      ghost var n0 := nodes;
      if lp.ptr == PHYS_MAP_NODE_NIL {
        NilApproximates(nodes, info, lp, l, b);
        NilPacked(nodes, lp, l);
        return;
      }
      var k := lp.ptr;
      LinkBelow(nodes, info, lp, l, b);
      ghost var level := l - lp.skip;
      NothingCompacted(nodes, info, k);
      PackedNone(nodes, nodes[k], level);
      ghost var first: nat := 0;
      var valid, validPtr, i := 0, P_L2_SIZE, 0;
      while i < P_L2_SIZE
        invariant 0 <= i <= P_L2_SIZE && |nodes| == |n0| == |info|
        invariant Ok(nodes, info) && ChangedBelow(n0, info, nodes, info, level + 1, info[k].base)
        invariant NodeApproximates(n0, nodes, info, k)
        invariant valid >= 0 && 0 <= validPtr <= P_L2_SIZE
        invariant valid == 0 ==> forall j :: 0 <= j < i ==> nodes[k][j].ptr == PHYS_MAP_NODE_NIL
        invariant valid > 0 ==> 0 <= validPtr < i && nodes[k][validPtr].ptr != PHYS_MAP_NODE_NIL
        invariant valid == 1 ==> forall j :: 0 <= j < i && j != validPtr ==> nodes[k][j].ptr == PHYS_MAP_NODE_NIL
        invariant valid > 1 ==> first < validPtr < P_L2_SIZE && nodes[k][first].ptr != PHYS_MAP_NODE_NIL
        invariant PackedUpTo(nodes, nodes[k], level, i)
      {
        if nodes[k][i].ptr != PHYS_MAP_NODE_NIL {
          if valid > 0 { first := validPtr; }
          validPtr := i;
          valid := valid + 1;
          if nodes[k][i].skip != 0 {
            LinkStep(nodes, info, lp, l, b, i);
            ghost var n := nodes;
            var e := PhysPageCompact(nodes[k][i], level, SlotBase(info[k].base, i, level));
            SlotCompacted(n0, n, nodes, info, k, i, e);
            SlotFrame(n, info, nodes, info, k, i, e);
            PackedMore(n, nodes, info, k, i, e);
            nodes := nodes[k := nodes[k][i := e]];
          } else {
            PackedPlain(nodes, nodes[k], level, i);
          }
        } else {
          PackedPlain(nodes, nodes[k], level, i);
        }
        i := i + 1;
      }
      ChangedAbove(n0, info, nodes, info, lp, l, b);
      if valid != 1 {
        LinkKept(n0, nodes, info, lp, l, b);
        PackedKept(nodes, lp, l, valid, first, validPtr);
        return;
      }
      if Levels(pageBits) >= 64 && lp.skip + nodes[k][validPtr].skip >= 64 {
        FewLevels(pageBits);
        assert false;
        return;
      }
      PackedSkipped(nodes, lp, l, validPtr);
      LinkSkips(n0, nodes, info, lp, l, b, validPtr);
      SkippingOk(nodes, info, lp, l, b, validPtr);
      lp' := lp'.(ptr := nodes[k][validPtr].ptr);
      if nodes[k][validPtr].skip == 0 {
        lp' := lp'.(skip := 0);
      } else {
        lp' := lp'.(skip := lp'.skip + nodes[k][validPtr].skip);
      }
    }

    /** address_space_dispatch_new. */
    constructor (pageBits: nat)
      requires 1 <= pageBits <= 16
      ensures Building() && added == {} && |sections| == 1 && this.pageBits == pageBits
    {
      this.pageBits := pageBits;
      physMap, nodes, nodesAlloc, allocHint := Entry(1, PHYS_MAP_NODE_NIL), [], 0, 0;
      sections, subs, mru := [DUMMY], [], None;
      info, nodes0, root0, added := [], [], Entry(1, PHYS_MAP_NODE_NIL), {};
      new;
      LevelsSuffice(pageBits);
      EmptyAgrees(View());
    }

    /** The index as it was when building ended; compaction does not change its answers. */
    ghost function Exact(): Index
      requires 1 <= pageBits <= 16
      reads this
    {
      Index(Pow2(pageBits), Levels(pageBits), nodes0, root0, sections, subs)
    }

    /** The state in which addresses are looked up. */
    ghost predicate Ready()
      reads this
    {
      && 1 <= pageBits <= 16
      && Ok(nodes, info) && EntryOk(info, physMap, Levels(pageBits), 0)
      && Agrees(Exact(), added)
      && Approximates(nodes0, root0, nodes, physMap, Levels(pageBits), 0)
      && (mru.Some? ==> MruOk(Exact(), mru.value))
    }

    /** address_space_dispatch_compact. */
    method DispatchCompact()
      requires Building()
      modifies this
      ensures Ready() && added == old(added) && sections == old(sections)
      ensures Packed(nodes, physMap, Levels(pageBits))
      ensures forall a :: 0 <= a < WORD ==> Find(View(), a) == old(Find(View(), a))
    {
      nodes0, root0 := nodes, physMap;
      if physMap.skip != 0 {
        physMap := PhysPageCompact(physMap, Levels(pageBits), 0);
      }
      forall a | 0 <= a < WORD ensures Find(View(), a) == old(Find(View(), a)) {
        CompactionPreservesFind(Exact(), View(), a);
      }
    }

    /** address_space_lookup_region: whatever section the MRU entry holds, the answer is
        the one the plain set of ranges gives. */
    method LookupRegion(addr: nat, resolveSubpage: bool) returns (s: nat)
      requires Ready() && addr < WORD
      modifies this`mru
      ensures Ready() && s < |sections|
      ensures if resolveSubpage then sections[s] == Resolve(Exact(), addr) && Right(added, addr, sections[s])
              else s == Find(Exact(), addr)
      ensures mru == Some(Find(Exact(), addr))
    {
      hide Ok, EntryOk, Approximates, Walk, Pow2, Span, Right, Levels;
      ghost var v := Exact();
      FindExact(v, addr);
      CompactionPreservesFind(v, View(), addr);
      if mru.None? || mru.value == PHYS_SECTION_UNASSIGNED || !SectionCovers(sections[mru.value], addr) {
        s := PhysPageFind(addr);
        mru := Some(s);
        FoundIsMru(v, addr);
      } else {
        MruHit(v, mru.value, addr);
        s := mru.value;
      }
      PageInTable(v, addr);
      if resolveSubpage && sections[s].mr.Subpage? {
        s := subs[sections[s].mr.table].sub[addr % Pow2(pageBits)];
      }
    }

    /** address_space_translate_internal: the access is clamped to the section for RAM. */
    method TranslateInternal(addr: nat, plen: nat, resolveSubpage: bool) returns (s: nat, xlat: nat, plen': nat)
      requires Ready() && addr < WORD
      modifies this`mru
      ensures Ready() && s < |sections| && Valid(sections[s]) && Holds(sections[s], addr)
      ensures resolveSubpage ==> Right(added, addr, sections[s])
      ensures xlat == addr - sections[s].addr + sections[s].offset
      ensures plen' == if sections[s].mr.Backing? && sections[s].mr.ram
                       then Min(plen, sections[s].addr + sections[s].size - addr) else plen
    {
      hide Ok, EntryOk, Approximates, Walk, Pow2, Span, Levels;
      s := LookupRegion(addr, resolveSubpage);
      AnswerHolds(Exact(), added, addr, s, resolveSubpage);
      var off := addr - sections[s].addr;
      xlat := off + sections[s].offset;
      plen' := if sections[s].mr.Backing? && sections[s].mr.ram then Min(sections[s].size - off, plen) else plen;
    }
  }

  lemma FewLevels(pageBits: nat)
    requires 1 <= pageBits <= 16
    ensures Levels(pageBits) < 64
  {}

  ghost predicate PairwiseDisjoint(xs: seq<Section>) {
    forall i, j :: 0 <= i < j < |xs| ==> Disjoint(xs[i], xs[j])
  }

  /** A flat view turned into a dispatch map: add every range, then compact. */
  method DispatchOf(pageBits: nat, xs: seq<Section>) returns (d: AddressSpaceDispatch, ok: bool)
    requires 1 <= pageBits <= 16 && PairwiseDisjoint(xs)
    requires forall i :: 0 <= i < |xs| ==> Valid(xs[i]) && xs[i].mr.Backing?
    ensures fresh(d) && d.pageBits == pageBits
    ensures ok <== 5 * |xs| < Pow2(pageBits)
    ensures !ok ==> |d.sections| == Pow2(pageBits)
    ensures ok ==> d.Ready() && d.added == set x | x in xs
  {
    hide Agrees, Ok, EntryOk, Uncompacted, TablesUsed, Approximates, Pow2;
    d := new AddressSpaceDispatch(pageBits);
    ok := true;
    for i := 0 to |xs|
      invariant fresh(d) && d.pageBits == pageBits
      invariant d.Building() && d.added == set x | x in xs[..i]
      invariant |d.sections| <= 1 + 5 * i
    {
      assert Apart(xs[i], d.added);
      ok := d.FlatviewAddToDispatch(xs[i]);
      if !ok { return; }
      assert xs[..i + 1] == xs[..i] + [xs[i]];
    }
    assert xs[..|xs|] == xs;
    d.DispatchCompact();
  }

  /** Disjoint ranges fix the region and the offset of every address. */
  lemma RightIsUnique(added: set<Section>, a: nat, s: Section, s': Section)
    requires forall x, y :: x in added && y in added && x != y ==> Disjoint(x, y)
    requires Right(added, a, s) && Right(added, a, s')
    ensures s.mr == s'.mr && a - s.addr + s.offset == a - s'.addr + s'.offset
  {
    if Hit(added, a) {
      var x :| x in added && Holds(x, a) && Part(s, x);
      var y :| y in added && Holds(y, a) && Part(s', y);
      assert x == y;
    }
  }

  lemma AlignedZero(l: nat)
    ensures Aligned(0, l)
  {
    DivModUnique(0, 0, 0, Span(l));
  }

  lemma LinkStep(nodes: seq<Node>, info: seq<Place>, e: Entry, l: nat, b: nat, j: nat)
    requires Ok(nodes, info) && EntryOk(info, e, l, b) && 0 < e.skip && e.ptr != PHYS_MAP_NODE_NIL && j < P_L2_SIZE
    ensures e.skip <= l && e.ptr < |nodes| == |info|
    ensures EntryOk(info, nodes[e.ptr][j], l - e.skip, SlotBase(info[e.ptr].base, j, l - e.skip))
  {
    assert NodeOk(nodes, info, e.ptr);
  }

  lemma TablesUsedWeaken(v: Index, t: nat)
    requires TablesUsed(v, -1)
    ensures TablesUsed(v, t)
  {}

  /** The page of address `a` leads to sub-page table `t`. */
  ghost predicate HasTable(v: Index, a: nat, t: nat) {
    && v.ps > 0 && 0 <= a / v.ps < Span(v.levels) && 0 != Page(v, a / v.ps) < |v.sections|
    && v.sections[Page(v, a / v.ps)].mr == Subpage(t)
    && t < |v.subs| && |v.subs[t].sub| == v.ps
  }

  lemma TableThere(v: Index, added: set<Section>, a: nat, t: nat)
    requires Agrees(v, added) && 0 <= a / v.ps < Span(v.levels) && 0 != Page(v, a / v.ps) < |v.sections|
    requires v.sections[Page(v, a / v.ps)].mr == Subpage(t)
    ensures HasTable(v, a, t)
  {
    TablePage(v, a / v.ps, t);
  }

  /** TARGET_PAGE_ALIGN in 64-bit arithmetic. */
  function PageAlign(a: nat, ps: nat): nat
    requires ps > 0
  {
    var b := (a + ps - 1) % WORD;
    b - b % ps
  }

  function Advance(s: Section, n: nat): Section
    requires n <= s.size
  {
    Section(s.mr, s.addr + n, s.offset + n, s.size - n)
  }

  /** The pieces cover `x` up to where `remain` starts, and `remain` is the rest. */
  ghost predicate Split(x: Section, pieces: set<Section>, remain: Section) {
    && Part(remain, x) && remain.size > 0 && remain.addr + remain.size == x.addr + x.size
    && (forall y :: y in pieces ==> Part(y, x) && y.addr + y.size <= remain.addr)
    && (forall a :: x.addr <= a < remain.addr ==> Hit(pieces, a))
  }

  ghost predicate Complete(x: Section, pieces: set<Section>) {
    && (forall y :: y in pieces ==> Part(y, x))
    && (forall a :: Holds(x, a) ==> Hit(pieces, a))
  }

  lemma SplitStart(x: Section)
    requires x.size > 0
    ensures Split(x, {}, x)
  {}

  lemma SplitStep(x: Section, before: set<Section>, pieces: set<Section>, remain: Section, n: nat)
    requires Valid(x) && Apart(x, before) && Split(x, pieces, remain) && 0 < n <= remain.size
    ensures var now := remain.(size := n);
            && Valid(now) && Apart(now, before + pieces) && now.mr == x.mr
            && (n == remain.size ==> Complete(x, pieces + {now}))
            && (n < remain.size ==> Split(x, pieces + {now}, Advance(remain, n)))
  {
    var now := remain.(size := n);
    assert now in pieces + {now};
    forall a | x.addr <= a < remain.addr + n ensures Hit(pieces + {now}, a) {
      if a < remain.addr {
        assert Hit(pieces, a);
        var y :| y in pieces && Holds(y, a);
        assert y in pieces + {now};
      }
    }
  }

  lemma LeftInPage(a: nat, ps: nat)
    requires ps > 0 && WORD % ps == 0 && a < WORD && InPage(a, ps) != 0
    ensures (PageAlign(a, ps) - a) % WORD == ps - InPage(a, ps)
    ensures InPage(a + (ps - InPage(a, ps)), ps) == 0
  {
    hide PageAlign;
    PageArith(a, ps);
    var base := a / ps * ps;
    NextPage(a / ps, ps);
    AlignUp(base, a % ps, ps);
    DistanceUp(base, a % ps, ps, PageAlign(a, ps));
  }

  lemma NextPage(p: nat, ps: nat)
    requires ps > 0
    ensures (p * ps + ps) % ps == 0
  {
    Distribute(p, 1, ps);
    DivModUnique(p * ps + ps, p + 1, 0, ps);
  }

  lemma DistanceUp(base: nat, r: nat, ps: nat, up: nat)
    requires 0 < r < ps && base + ps <= WORD && up == if base + ps == WORD then 0 else base + ps
    ensures (up - (base + r)) % WORD == ps - r
  {
    if up == 0 {
      DivModUnique(up - (base + r), -1, ps - r, WORD);
    }
  }

  /** Rounding up from inside the page at `base` gives the next page, or 0 past the last one. */
  lemma AlignUp(base: nat, r: nat, ps: nat)
    requires ps > 0 && WORD % ps == 0 && 0 < r < ps && base + ps <= WORD && (base + ps) % ps == 0
    ensures PageAlign(base + r, ps) == if base + ps == WORD then 0 else base + ps
  {
    var top := base + ps;
    DivModUnique(r - 1, 0, r - 1, ps);
    if top + (r - 1) >= WORD {
      MultiplesApart(top, WORD, ps);
    } else {
      DivModEq(top, ps);
      DivModUnique(top + (r - 1), top / ps, r - 1, ps);
    }
  }

  /** Two multiples of `ps` less than `ps` apart are equal. */
  lemma MultiplesApart(a: nat, b: nat, ps: nat)
    requires ps > 0 && a % ps == 0 && b % ps == 0 && a <= b < a + ps
    ensures a == b
  {
    DivModEq(a, ps);
    DivModEq(b, ps);
    var p, q := a / ps, b / ps;
    if p < q { MulOrder(p + 1, q, ps); Distribute(p, 1, ps); }
    if q < p { MulOrder(q + 1, p, ps); Distribute(q, 1, ps); }
  }

  lemma WholePart(s: Section, ps: nat)
    requires ps > 0 && InPage(s.addr, ps) == 0 && s.size >= ps
    ensures var n := s.size - InPage(s.size, ps);
            && WholePages(s.(size := n), ps) && ps <= n
            && InPage(s.addr + n, ps) == 0
  {
    DivModEq(s.size, ps);
    DivModEq(s.addr, ps);
    var n, q := s.size - s.size % ps, s.size / ps;
    DivModUnique(n, q, 0, ps);
    Distribute(s.addr / ps, q, ps);
    DivModUnique(s.addr + n, s.addr / ps + q, 0, ps);
    if q < 1 { MulOrder(q, 0, ps); }
    MulAtLeast(q, ps);
  }

  lemma NilApproximates(n: seq<Node>, info: seq<Place>, e: Entry, l: nat, b: nat)
    requires Ok(n, info) && EntryOk(info, e, l, b) && e.skip != 0 && e.ptr == PHYS_MAP_NODE_NIL
    ensures Approximates(n, e, n, e, l, b) && ChangedBelow(n, info, n, info, l, b)
  {}

  lemma LinkBelow(n: seq<Node>, info: seq<Place>, e: Entry, l: nat, b: nat)
    requires Ok(n, info) && EntryOk(info, e, l, b) && e.skip != 0 && e.ptr != PHYS_MAP_NODE_NIL
    ensures e.ptr < |n| == |info| && 0 < e.skip <= l && info[e.ptr].level == l - e.skip
  {}

  lemma ChangedAbove(n0: seq<Node>, i0: seq<Place>, n1: seq<Node>, i1: seq<Place>, e: Entry, l: nat, b: nat)
    requires Ok(n0, i0) && EntryOk(i0, e, l, b) && e.skip != 0 && e.ptr != PHYS_MAP_NODE_NIL
    requires ChangedBelow(n0, i0, n1, i1, l - e.skip + 1, i0[e.ptr].base)
    ensures ChangedBelow(n0, i0, n1, i1, l, b)
  {
    assert Span(i0[e.ptr].level + 1) == Span(l - e.skip + 1);
  }

  /** An MRU entry is the unassigned section or the section of some page. */
  ghost predicate MruOk(v: Index, s: nat) {
    s < |v.sections| && (s == PHYS_SECTION_UNASSIGNED || exists p :: 0 <= p < Span(v.levels) && Page(v, p) == s)
  }

  lemma EmptyAgrees(v: Index)
    requires v.root == Entry(1, PHYS_MAP_NODE_NIL) && v.sections == [DUMMY] && v.levels > 0
    requires v.ps > 0 && WORD <= Span(v.levels) * v.ps && WORD % v.ps == 0
    ensures Agrees(v, {}) && TablesUsed(v, -1)
  {
    forall p | 0 <= p < Span(v.levels) ensures PageOk(v, p) && Page(v, p) == 0 {}
  }

  /** The MRU shortcut: an exactly mapped section that covers an address is the
      section the page map holds for it. */
  lemma MruHit(v: Index, s: nat, a: nat)
    requires Shape(v) && MruOk(v, s) && s != PHYS_SECTION_UNASSIGNED && a < WORD
    requires SectionCovers(v.sections[s], a)
    ensures Page(v, a / v.ps) == s
  {
    var p :| 0 <= p < Span(v.levels) && Page(v, p) == s;
    assert PageOk(v, p);
    CoversIsHolds(v.sections[s], a);
    WholePagesHold(v.sections[s], v.ps, a);
  }

  lemma FoundIsMru(v: Index, a: nat)
    requires Shape(v) && a < WORD
    ensures MruOk(v, Find(v, a))
  {
    PageInRange(v, a);
    FindExact(v, a);
    assert PageOk(v, a / v.ps);
  }

  lemma PageInTable(v: Index, a: nat)
    requires Shape(v) && a < WORD
    ensures var s := Page(v, a / v.ps);
            && s < |v.sections|
            && (v.sections[s].mr.Subpage? ==>
                  var t := v.sections[s].mr.table;
                  t < |v.subs| && a % v.ps < |v.subs[t].sub| && v.subs[t].sub[a % v.ps] < |v.sections|)
  {
    PageInRange(v, a);
    assert PageOk(v, a / v.ps);
  }

  lemma AnswerHolds(v: Index, added: set<Section>, a: nat, s: nat, resolved: bool)
    requires Agrees(v, added) && a < WORD && s < |v.sections|
    requires if resolved then v.sections[s] == Resolve(v, a) else s == Find(v, a)
    ensures Valid(v.sections[s]) && Holds(v.sections[s], a)
  {
    if resolved {
      assert Right(added, a, Resolve(v, a));
    } else {
      CoversIsHolds(v.sections[s], a);
    }
  }
}
