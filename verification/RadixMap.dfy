/** The store behind the physical page map: 512-way nodes, entries that are
    either leaves (skip == 0, ptr is a section number) or links that jump `skip`
    levels down to another node, and the walk that phys_page_find performs. */
module RadixMap {
  import opened Arithmetic

  const P_L2_SIZE: nat := 512
  const PHYS_MAP_NODE_NIL: nat := 0x3FF_FFFF
  const PHYS_SECTION_UNASSIGNED: nat := 0

  datatype Entry = Entry(skip: nat, ptr: nat)
  type Node = s: seq<Entry> | |s| == P_L2_SIZE witness seq(P_L2_SIZE, _ => Entry(0, 0))

  /** Where a node sits in the tree: it indexes the pages
      [base, base + 512^(level+1)). Ghost bookkeeping only. */
  datatype Place = Place(level: nat, base: nat)

  /** 512^n, the number of pages under one entry of a node of level n. */
  function Span(n: nat): (r: nat)
    ensures r >= 1
  {
    if n == 0 then 1 else P_L2_SIZE * Span(n - 1)
  }

  /** First page of slot `j` of a node of the given level and base. */
  function SlotBase(b: nat, j: nat, level: nat): (r: nat)
    ensures r >= b
  {
    MulOrder(0, j, Span(level));
    b + j * Span(level)
  }

  predicate Aligned(p: nat, level: nat) {
    p % Span(level) == 0
  }

  function Slot(p: nat, level: nat): (j: nat)
    ensures j < P_L2_SIZE
  {
    (p / Span(level)) % P_L2_SIZE
  }

  /** A page of a node's range lies in exactly the slot that the index bits select. */
  lemma SlotSelects(p: nat, level: nat, b: nat)
    requires Aligned(b, level + 1)
    requires b <= p < b + Span(level + 1)
    ensures SlotBase(b, Slot(p, level), level) <= p < SlotBase(b, Slot(p, level), level) + Span(level)
  {
    var q := NodeQuotient(level, b);
    var t := StridesAbove(p, q, 512, Span(level));
    assert Slot(p, level) == t;
  }

  /** A node's base is a multiple of 512 slots. */
  lemma NodeQuotient(level: nat, b: nat) returns (q: nat)
    requires Aligned(b, level + 1)
    ensures b == q * Span(level) && q % 512 == 0
  {
    var t := b / Span(level + 1);
    DivModEq(b, Span(level + 1));
    MulAssoc(t, 512, Span(level));
    q := t * 512;
  }

  lemma SlotOf(p: nat, level: nat, b: nat, j: nat)
    requires Aligned(b, level + 1) && j < P_L2_SIZE
    requires SlotBase(b, j, level) <= p < SlotBase(b, j, level) + Span(level)
    ensures b <= p < b + Span(level + 1)
    ensures Slot(p, level) == j
  {
    hide *;
    SlotInside(level, b, j);
    SlotSelects(p, level, b);
    var k := Slot(p, level);
    if k < j { SlotsApart(level, b, k, j); }
    if j < k { SlotsApart(level, b, j, k); }
  }

  /** The slots of a node tile its range. */
  lemma SlotInside(level: nat, b: nat, j: nat)
    requires Aligned(b, level + 1) && j < P_L2_SIZE
    ensures Aligned(SlotBase(b, j, level), level)
    ensures SlotBase(b, j + 1, level) == SlotBase(b, j, level) + Span(level)
    ensures SlotBase(b, 0, level) == b && SlotBase(b, P_L2_SIZE, level) == b + Span(level + 1)
    ensures SlotBase(b, j, level) + Span(level) <= b + Span(level + 1)
  {
    var s := Span(level);
    Distribute(j, 1, s);
    var q := NodeQuotient(level, b);
    Distribute(q, j, s);
    DivModUnique(b + j * s, q + j, 0, s);
    MulOrder(j, 511, s);
    MulOrder(0, j, s);
  }

  lemma SlotsApart(level: nat, b: nat, j: nat, j': nat)
    requires j < j'
    ensures SlotBase(b, j, level) + Span(level) <= SlotBase(b, j', level)
  {
    Distribute(j, 1, Span(level));
    MulOrder(j + 1, j', Span(level));
  }

  /** The walk of phys_page_find: `e` is the current entry, `i` the levels left. */
  function Walk(nodes: seq<Node>, e: Entry, i: nat, p: nat): nat
    decreases i
  {
    if e.skip == 0 || i < e.skip then e.ptr
    else if e.ptr == PHYS_MAP_NODE_NIL then PHYS_SECTION_UNASSIGNED
    else if e.ptr < |nodes| then Walk(nodes, nodes[e.ptr][Slot(p, i - e.skip)], i - e.skip, p)
    else PHYS_SECTION_UNASSIGNED
  }

  ghost predicate Below(x: Place, l: nat, b: nat) {
    x.level < l && b <= x.base && x.base + Span(x.level + 1) <= b + Span(l)
  }

  /** `e` is a sound entry for the pages [b, b + 512^l). A leaf above the bottom
      level always names a real section. */
  ghost predicate EntryOk(info: seq<Place>, e: Entry, l: nat, b: nat) {
    if e.skip == 0 then e.ptr < PHYS_MAP_NODE_NIL && (l > 0 ==> e.ptr != PHYS_SECTION_UNASSIGNED)
    else
      && e.skip <= l
      && (e.ptr != PHYS_MAP_NODE_NIL ==>
            e.ptr < |info| && info[e.ptr].level == l - e.skip && Below(info[e.ptr], l, b))
  }

  ghost predicate NodeOk(nodes: seq<Node>, info: seq<Place>, k: nat)
    requires k < |nodes| == |info|
  {
    && Aligned(info[k].base, info[k].level + 1)
    && forall j :: 0 <= j < P_L2_SIZE ==>
         EntryOk(info, nodes[k][j], info[k].level, SlotBase(info[k].base, j, info[k].level))
  }

  ghost predicate Ok(nodes: seq<Node>, info: seq<Place>) {
    && |nodes| == |info| <= PHYS_MAP_NODE_NIL
    && forall k :: 0 <= k < |nodes| ==> NodeOk(nodes, info, k)
  }

  /** Before compaction no link jumps more than one level. */
  ghost predicate Uncompacted(nodes: seq<Node>) {
    forall k, j :: 0 <= k < |nodes| && 0 <= j < P_L2_SIZE ==> nodes[k][j].skip <= 1
  }

  lemma NodeAligned(nodes: seq<Node>, info: seq<Place>, k: nat)
    requires Ok(nodes, info) && k < |nodes|
    ensures |info| == |nodes| <= PHYS_MAP_NODE_NIL
    ensures Aligned(info[k].base, info[k].level + 1)
  {
    assert NodeOk(nodes, info, k);
  }

  /** `n1` differs from `n0` only in nodes below (l, b), and in new nodes there. */
  ghost predicate ChangedBelow(n0: seq<Node>, i0: seq<Place>, n1: seq<Node>, i1: seq<Place>, l: nat, b: nat) {
    && |n0| == |i0| <= |n1| == |i1|
    && i1[..|i0|] == i0
    && (forall k :: 0 <= k < |n0| && !Below(i0[k], l, b) ==> n1[k] == n0[k])
    && (forall k :: |n0| <= k < |n1| ==> Below(i1[k], l, b))
  }

  lemma BelowSlot(x: Place, level: nat, b: nat, j: nat)
    requires Aligned(b, level + 1) && j < P_L2_SIZE
    requires Below(x, level, SlotBase(b, j, level))
    ensures Below(x, level + 1, b)
  {
    SlotInside(level, b, j);
  }

  /** Subtrees of disjoint page ranges share no node. */
  lemma BelowDisjoint(x: Place, l: nat, b: nat, l': nat, b': nat)
    requires b + Span(l) <= b' || b' + Span(l') <= b
    ensures !(Below(x, l, b) && Below(x, l', b'))
  {}

  lemma BelowSlotsDisjoint(x: Place, level: nat, b: nat, j: nat, j': nat)
    requires j != j'
    ensures !(Below(x, level, SlotBase(b, j, level)) && Below(x, level, SlotBase(b, j', level)))
  {
    if j < j' { SlotsApart(level, b, j, j'); } else { SlotsApart(level, b, j', j); }
    BelowDisjoint(x, level, SlotBase(b, j, level), level, SlotBase(b, j', level));
  }

  /** The walk from an entry reads only nodes below it. */
  lemma {:induction false} WalkFrame(n0: seq<Node>, n1: seq<Node>, info: seq<Place>, e: Entry, l: nat, b: nat, p: nat)
    requires Ok(n0, info) && EntryOk(info, e, l, b)
    requires |n0| <= |n1|
    requires forall k :: 0 <= k < |n0| && Below(info[k], l, b) ==> n1[k] == n0[k]
    ensures Walk(n1, e, l, p) == Walk(n0, e, l, p)
    decreases l
  {
    if e.skip != 0 && e.ptr != PHYS_MAP_NODE_NIL {
      var m := e.ptr;
      var l' := l - e.skip;
      var j := Slot(p, l');
      var b' := SlotBase(info[m].base, j, l');
      assert NodeOk(n0, info, m);
      forall k | 0 <= k < |n0| && Below(info[k], l', b') ensures Below(info[k], l, b) {
        BelowSlot(info[k], l', info[m].base, j);
        assert Span(info[m].level + 1) == Span(l' + 1);
      }
      WalkFrame(n0, n1, info, n0[m][j], l', b', p);
    }
  }

  /** Going from entry `e0` of `n0` to entry `e1` of `n1`, exactly the pages
      [lo, hi) of the range [b, b + 512^l) now lead to section `leaf`. */
  ghost predicate Filled(n0: seq<Node>, e0: Entry, n1: seq<Node>, e1: Entry, l: nat, b: nat,
                         lo: nat, hi: nat, leaf: nat) {
    forall p {:trigger Walk(n1, e1, l, p)} :: b <= p < b + Span(l) ==>
      Walk(n1, e1, l, p) == if lo <= p < hi then leaf else Walk(n0, e0, l, p)
  }

  lemma SlotFrame(n0: seq<Node>, i0: seq<Place>, n1: seq<Node>, i1: seq<Place>, k: nat, j: nat, e: Entry)
    requires Ok(n0, i0) && Ok(n1, i1) && k < |n0| && j < P_L2_SIZE
    requires ChangedBelow(n0, i0, n1, i1, i0[k].level, SlotBase(i0[k].base, j, i0[k].level))
    ensures n1[k] == n0[k] && i1[k] == i0[k]
    ensures ChangedBelow(n0, i0, n1[k := n1[k][j := e]], i1, i0[k].level + 1, i0[k].base)
  {
    var level, b := i0[k].level, i0[k].base;
    assert NodeOk(n0, i0, k);
    assert i1[k] == i1[..|i0|][k];
    forall m | 0 <= m < |n1| && Below(i1[m], level, SlotBase(b, j, level)) ensures Below(i1[m], level + 1, b) {
      BelowSlot(i1[m], level, b, j);
    }
    forall m | 0 <= m < |n0| ensures i0[m] == i1[m] {
      assert i1[m] == i1[..|i0|][m];
    }
  }

  lemma SlotOk(n1: seq<Node>, i1: seq<Place>, k: nat, j: nat, e: Entry)
    requires Ok(n1, i1) && k < |n1| && j < P_L2_SIZE
    requires EntryOk(i1, e, i1[k].level, SlotBase(i1[k].base, j, i1[k].level))
    ensures Ok(n1[k := n1[k][j := e]], i1)
  {
    var n2 := n1[k := n1[k][j := e]];
    forall m | 0 <= m < |n2| ensures NodeOk(n2, i1, m) {
      assert NodeOk(n1, i1, m);
    }
  }

  /** Rewriting slot `j` of node `k` leaves the walks through all other slots alone. */
  lemma SlotWalk(n0: seq<Node>, i0: seq<Place>, n1: seq<Node>, i1: seq<Place>, k: nat, j: nat, e: Entry, p: nat)
    requires Ok(n0, i0) && Ok(n1, i1) && k < |n0| && j < P_L2_SIZE
    requires ChangedBelow(n0, i0, n1, i1, i0[k].level, SlotBase(i0[k].base, j, i0[k].level))
    requires EntryOk(i1, e, i0[k].level, SlotBase(i0[k].base, j, i0[k].level))
    ensures Walk(n1[k := n1[k][j := e]], Entry(1, k), i0[k].level + 1, p) ==
            if Slot(p, i0[k].level) == j then Walk(n1, e, i0[k].level, p)
            else Walk(n0, Entry(1, k), i0[k].level + 1, p)
  {
    SlotFrame(n0, i0, n1, i1, k, j, e);
    assert k < PHYS_MAP_NODE_NIL;
    if Slot(p, i0[k].level) == j {
      WalkFrame(n1, n1[k := n1[k][j := e]], i1, e, i0[k].level, SlotBase(i0[k].base, j, i0[k].level), p);
    } else {
      OtherSlotWalk(n0, i0, n1, i1, k, j, e, p);
    }
  }

  lemma OtherSlotWalk(n0: seq<Node>, i0: seq<Place>, n1: seq<Node>, i1: seq<Place>, k: nat, j: nat, e: Entry, p: nat)
    requires Ok(n0, i0) && k < |n0| && |n0| <= |n1| && j < P_L2_SIZE && n1[k] == n0[k]
    requires ChangedBelow(n0, i0, n1, i1, i0[k].level, SlotBase(i0[k].base, j, i0[k].level))
    requires Slot(p, i0[k].level) != j
    ensures Walk(n1[k := n1[k][j := e]], n0[k][Slot(p, i0[k].level)], i0[k].level, p) ==
            Walk(n0, n0[k][Slot(p, i0[k].level)], i0[k].level, p)
  {
    var level, b, n2, j' := i0[k].level, i0[k].base, n1[k := n1[k][j := e]], Slot(p, i0[k].level);
    assert NodeOk(n0, i0, k);
    forall m | 0 <= m < |n0| && Below(i0[m], level, SlotBase(b, j', level)) ensures n2[m] == n0[m] {
      BelowSlotsDisjoint(i0[m], level, b, j, j');
    }
    WalkFrame(n0, n2, i0, n0[k][j'], level, SlotBase(b, j', level), p);
  }

  /** One slot of a node is filled from `hi` to `hi'`: the node as a whole is. */
  lemma SlotFilled(na: seq<Node>, n0: seq<Node>, i0: seq<Place>, n1: seq<Node>, i1: seq<Place>,
                   k: nat, j: nat, e: Entry, lo: nat, hi: nat, hi': nat, leaf: nat)
    requires Ok(n0, i0) && Ok(n1, i1) && k < |n0| && j < P_L2_SIZE
    requires ChangedBelow(n0, i0, n1, i1, i0[k].level, SlotBase(i0[k].base, j, i0[k].level))
    requires EntryOk(i1, e, i0[k].level, SlotBase(i0[k].base, j, i0[k].level))
    requires Filled(na, Entry(1, k), n0, Entry(1, k), i0[k].level + 1, i0[k].base, lo, hi, leaf)
    requires Filled(n0, n0[k][j], n1, e, i0[k].level, SlotBase(i0[k].base, j, i0[k].level), hi, hi', leaf)
    requires lo <= hi <= hi'
    requires SlotBase(i0[k].base, j, i0[k].level) <= hi
    requires hi' <= SlotBase(i0[k].base, j, i0[k].level) + Span(i0[k].level)
    ensures Filled(na, Entry(1, k), n1[k := n1[k][j := e]], Entry(1, k), i0[k].level + 1, i0[k].base, lo, hi', leaf)
  {
    var level, b, n2 := i0[k].level, i0[k].base, n1[k := n1[k][j := e]];
    hide Ok, ChangedBelow, EntryOk, Walk, Span, SlotBase;
    NodeAligned(n0, i0, k);
    var l, link := level + 1, Entry(1, k);
    forall p | b <= p < b + Span(l)
      ensures Walk(n2, link, l, p) == if lo <= p < hi' then leaf else Walk(na, link, l, p)
    {
      SlotWalk(n0, i0, n1, i1, k, j, e, p);
      LinkWalk(n0, k, level, p);
      SlotSelects(p, level, b);
      assert Walk(n0, link, l, p) == if lo <= p < hi then leaf else Walk(na, link, l, p);
      if Slot(p, level) == j {
        assert Walk(n1, e, level, p) == if hi <= p < hi' then leaf else Walk(n0, n0[k][j], level, p);
      } else if hi <= p < hi' {
        SlotOf(p, level, b, j);
        assert false;
      }
    }
  }

  lemma LinkWalk(nodes: seq<Node>, k: nat, level: nat, p: nat)
    requires k < |nodes| <= PHYS_MAP_NODE_NIL
    ensures Walk(nodes, Entry(1, k), level + 1, p) == Walk(nodes, nodes[k][Slot(p, level)], level, p)
  {}

  lemma ChangedTrans(n0: seq<Node>, i0: seq<Place>, n1: seq<Node>, i1: seq<Place>,
                     n2: seq<Node>, i2: seq<Place>, l: nat, b: nat)
    requires ChangedBelow(n0, i0, n1, i1, l, b) && ChangedBelow(n1, i1, n2, i2, l, b)
    ensures ChangedBelow(n0, i0, n2, i2, l, b)
  {
    forall m | 0 <= m < |i1| ensures i2[m] == i1[m] { assert i2[m] == i2[..|i1|][m]; }
    forall m | 0 <= m < |i0| ensures i1[m] == i0[m] { assert i1[m] == i1[..|i0|][m]; }
  }

  /** A fresh node of the given level: no page of it is assigned. */
  function FreshNode(leaf: bool): Node {
    seq(P_L2_SIZE, _ => if leaf then Entry(0, PHYS_SECTION_UNASSIGNED) else Entry(1, PHYS_MAP_NODE_NIL))
  }

  lemma FreshNodeOk(n0: seq<Node>, i0: seq<Place>, level: nat, b: nat)
    requires Ok(n0, i0) && |n0| < PHYS_MAP_NODE_NIL && Aligned(b, level + 1)
    ensures Ok(n0 + [FreshNode(level == 0)], i0 + [Place(level, b)])
    ensures ChangedBelow(n0, i0, n0 + [FreshNode(level == 0)], i0 + [Place(level, b)], level + 1, b)
    ensures Filled(n0, Entry(1, PHYS_MAP_NODE_NIL), n0 + [FreshNode(level == 0)], Entry(1, |n0|), level + 1, b, 0, 0, 0)
  {
    var n1, i1 := n0 + [FreshNode(level == 0)], i0 + [Place(level, b)];
    forall m | 0 <= m < |n1| ensures NodeOk(n1, i1, m) {
      if m < |n0| { assert NodeOk(n0, i0, m); }
    }
    var l, link := level + 1, Entry(1, |n0|);
    forall p ensures Walk(n1, link, l, p) == 0 {
      assert Walk(n1, link, l, p) == Walk(n1, n1[|n0|][Slot(p, level)], level, p);
    }
  }

  ghost predicate Vacant(nodes: seq<Node>, e: Entry, l: nat, lo: nat, hi: nat) {
    forall p :: lo <= p < hi ==> Walk(nodes, e, l, p) == PHYS_SECTION_UNASSIGNED
  }

  /** Nodes that filling [index, index + nb) below (level + 1, b) may allocate: one
      per level along a one-sided boundary, two when the range has both ends inside. */
  function AllocBound(level: nat, b: nat, index: nat, nb: nat): (r: nat)
    ensures 1 <= r <= 2 * level + 1
  {
    if index == b || index + nb >= b + Span(level + 1) then level + 1 else 2 * level + 1
  }

  /** The same bound for one slot: none if the slot is filled whole. */
  function SlotBound(level: nat, sb: nat, index: nat, nb: nat): nat {
    if level == 0 || (Aligned(index, level) && nb >= Span(level)) then 0 else AllocBound(level - 1, sb, index, nb)
  }

  lemma AlignedIn(x: nat, b: nat, level: nat)
    requires Aligned(x, level) && Aligned(b, level) && b <= x < b + Span(level)
    ensures x == b
  {
    var s := Span(level);
    DivModEq(x, s);
    DivModEq(b, s);
    Distribute(x / s, b / s, s);
    if x / s > b / s { MulAtLeast(x / s - b / s, s); assert false; }
    if x / s < b / s { MulOrder(x / s, b / s, s); }
  }

  /** No leaf above the bottom level lies partly inside the pages [lo, hi). Filling these
      pages would take the section number of such a leaf for the number of a node. */
  ghost predicate Uncut(nodes: seq<Node>, e: Entry, l: nat, b: nat, lo: nat, hi: nat)
    decreases l, 0
  {
    if e.skip == 0 || l < e.skip then
      l == 0 || b + Span(l) <= lo || hi <= b || (lo <= b && b + Span(l) <= hi)
    else
      e.ptr < |nodes| ==> UncutFrom(nodes, nodes[e.ptr], l - e.skip, b, 0, lo, hi)
  }

  /** The same for the slots of a node from `j` on. */
  ghost predicate UncutFrom(nodes: seq<Node>, node: Node, level: nat, b: nat, j: nat, lo: nat, hi: nat)
    decreases level, 1
  {
    forall i :: j <= i < P_L2_SIZE ==> Uncut(nodes, node[i], level, SlotBase(b, i, level), lo, hi)
  }

  lemma VacantSlot(nodes: seq<Node>, info: seq<Place>, k: nat, j: nat, lo: nat, hi: nat)
    requires Ok(nodes, info) && Uncompacted(nodes) && k < |nodes| && j < P_L2_SIZE
    requires var l, b := info[k].level + 1, info[k].base;
             forall p :: lo <= p < hi && b <= p < b + Span(l) ==> Walk(nodes, Entry(1, k), l, p) == PHYS_SECTION_UNASSIGNED
    ensures var l, b := info[k].level, SlotBase(info[k].base, j, info[k].level);
            && EntryOk(info, nodes[k][j], l, b) && Aligned(b, l) && nodes[k][j].skip <= 1
            && forall p :: lo <= p < hi && b <= p < b + Span(l) ==> Walk(nodes, nodes[k][j], l, p) == PHYS_SECTION_UNASSIGNED
  {
    var l, sb := info[k].level, SlotBase(info[k].base, j, info[k].level);
    assert NodeOk(nodes, info, k);
    hide Ok, Uncompacted, Walk, SlotBase, Span, Aligned;
    SlotInside(l, info[k].base, j);
    forall p | lo <= p < hi && sb <= p < sb + Span(l) ensures Walk(nodes, nodes[k][j], l, p) == PHYS_SECTION_UNASSIGNED {
      SlotOf(p, l, info[k].base, j);
      LinkWalk(nodes, k, l, p);
    }
  }

  /** Pages that are all free cut no leaf. */
  lemma {:induction false} VacantUncut(nodes: seq<Node>, info: seq<Place>, e: Entry, l: nat, b: nat, lo: nat, hi: nat)
    requires Ok(nodes, info) && Uncompacted(nodes) && EntryOk(info, e, l, b) && Aligned(b, l) && e.skip <= 1 && lo < hi
    requires forall p :: lo <= p < hi && b <= p < b + Span(l) ==> Walk(nodes, e, l, p) == PHYS_SECTION_UNASSIGNED
    ensures Uncut(nodes, e, l, b, lo, hi)
    decreases l
  {
    if e.skip == 0 {
      var p := if lo <= b then b else lo;
      assert lo <= p < hi && b <= p < b + Span(l) ==> Walk(nodes, e, l, p) == PHYS_SECTION_UNASSIGNED;
    } else if e.ptr < |nodes| {
      var k := e.ptr;
      hide Ok, Uncompacted, EntryOk, Walk, SlotBase, Span, Aligned, Uncut;
      OkBound(nodes, info);
      LinkBase(nodes, info, k, l - 1, b);
      forall j | 0 <= j < P_L2_SIZE ensures Uncut(nodes, nodes[k][j], l - 1, SlotBase(b, j, l - 1), lo, hi) {
        VacantSlot(nodes, info, k, j, lo, hi);
        VacantUncut(nodes, info, nodes[k][j], l - 1, SlotBase(b, j, l - 1), lo, hi);
      }
      UncutLink(nodes, e, l, b, lo, hi);
    }
  }

  lemma UncutLink(nodes: seq<Node>, e: Entry, l: nat, b: nat, lo: nat, hi: nat)
    requires e.skip == 1 <= l && e.ptr < |nodes|
    ensures Uncut(nodes, e, l, b, lo, hi) <==> UncutFrom(nodes, nodes[e.ptr], l - 1, b, 0, lo, hi)
  {}

  lemma UncutSlot(nodes: seq<Node>, node: Node, level: nat, b: nat, j: nat, lo: nat, hi: nat)
    requires UncutFrom(nodes, node, level, b, j, lo, hi) && j < P_L2_SIZE
    ensures Uncut(nodes, node[j], level, SlotBase(b, j, level), lo, hi)
  {}

  lemma UncutLater(nodes: seq<Node>, node: Node, level: nat, b: nat, j: nat, lo: nat, hi: nat)
    requires UncutFrom(nodes, node, level, b, 0, lo, hi)
    ensures UncutFrom(nodes, node, level, b, j, lo, hi)
  {}

  lemma OkBound(nodes: seq<Node>, info: seq<Place>)
    requires Ok(nodes, info)
    ensures |nodes| == |info| <= PHYS_MAP_NODE_NIL
  {}

  lemma LinkBase(nodes: seq<Node>, info: seq<Place>, k: nat, level: nat, b: nat)
    requires Ok(nodes, info) && k < |nodes| && EntryOk(info, Entry(1, k), level + 1, b)
    ensures info[k] == Place(level, b) && Aligned(b, level + 1)
  {
    assert NodeOk(nodes, info, k);
  }

  lemma FreshUncut(nodes: seq<Node>, level: nat, b: nat, lo: nat, hi: nat)
    requires |nodes| <= PHYS_MAP_NODE_NIL
    ensures UncutFrom(nodes, FreshNode(level == 0), level, b, 0, lo, hi)
  {
    forall i | 0 <= i < P_L2_SIZE ensures Uncut(nodes, FreshNode(level == 0)[i], level, SlotBase(b, i, level), lo, hi) {
      assert FreshNode(level == 0)[i] == if level == 0 then Entry(0, PHYS_SECTION_UNASSIGNED) else Entry(1, PHYS_MAP_NODE_NIL);
    }
  }

  /** The leaves below an entry depend only on the nodes below it. */
  lemma {:induction false} UncutFrame(n0: seq<Node>, n1: seq<Node>, info: seq<Place>, e: Entry, l: nat, b: nat, lo: nat, hi: nat)
    requires Ok(n0, info) && Uncompacted(n0) && EntryOk(info, e, l, b) && e.skip <= 1 && Uncut(n0, e, l, b, lo, hi)
    requires |n0| <= |n1| <= PHYS_MAP_NODE_NIL && forall k :: 0 <= k < |n0| && Below(info[k], l, b) ==> n1[k] == n0[k]
    ensures Uncut(n1, e, l, b, lo, hi)
    decreases l
  {
    if e.skip != 0 && e.ptr != PHYS_MAP_NODE_NIL {
      var m := e.ptr;
      hide SlotBase, Span, Aligned, Uncut;
      LinkBase(n0, info, m, l - 1, b);
      UncutLink(n0, e, l, b, lo, hi);
      forall j | 0 <= j < P_L2_SIZE ensures Uncut(n1, n1[m][j], l - 1, SlotBase(b, j, l - 1), lo, hi) {
        assert NodeOk(n0, info, m);
        forall k | 0 <= k < |n0| && Below(info[k], l - 1, SlotBase(b, j, l - 1)) ensures n1[k] == n0[k] {
          BelowSlot(info[k], l - 1, b, j);
        }
        UncutFrame(n0, n1, info, n0[m][j], l - 1, SlotBase(b, j, l - 1), lo, hi);
      }
      UncutLink(n1, e, l, b, lo, hi);
    }
  }

  /** Only slot `j` of node `k` and the nodes below this slot changed. */
  ghost predicate OneSlot(n0: seq<Node>, i0: seq<Place>, n1: seq<Node>, k: nat, j: nat)
    requires k < |n0| == |i0| && j < P_L2_SIZE
  {
    && |n0| <= |n1|
    && n1[k] == n0[k][j := n1[k][j]]
    && forall m :: 0 <= m < |n0| && m != k && !Below(i0[m], i0[k].level, SlotBase(i0[k].base, j, i0[k].level)) ==> n1[m] == n0[m]
  }

  lemma OneSlotChanged(n0: seq<Node>, i0: seq<Place>, n1: seq<Node>, i1: seq<Place>, k: nat, j: nat, e: Entry)
    requires k < |n0| == |i0| && j < P_L2_SIZE
    requires ChangedBelow(n0, i0, n1, i1, i0[k].level, SlotBase(i0[k].base, j, i0[k].level))
    ensures OneSlot(n0, i0, n1[k := n1[k][j := e]], k, j)
  {}

  /** The slots behind the one that was filled are as they were. */
  lemma UncutRest(n0: seq<Node>, i0: seq<Place>, n1: seq<Node>, k: nat, j: nat, lo: nat, hi: nat)
    requires Ok(n0, i0) && Uncompacted(n0) && |n1| <= PHYS_MAP_NODE_NIL
    requires k < |n0| && j < P_L2_SIZE && OneSlot(n0, i0, n1, k, j)
    requires UncutFrom(n0, n0[k], i0[k].level, i0[k].base, j, lo, hi)
    ensures UncutFrom(n1, n1[k], i0[k].level, i0[k].base, j + 1, lo, hi)
  {
    var level, b := i0[k].level, i0[k].base;
    assert NodeOk(n0, i0, k);
    hide Ok, SlotBase, Span, Aligned, Uncut;
    forall i | j + 1 <= i < P_L2_SIZE ensures Uncut(n1, n1[k][i], level, SlotBase(b, i, level), lo, hi) {
      forall m | 0 <= m < |n0| && Below(i0[m], level, SlotBase(b, i, level)) ensures n1[m] == n0[m] {
        BelowSlotsDisjoint(i0[m], level, b, j, i);
      }
      UncutFrame(n0, n1, i0, n0[k][i], level, SlotBase(b, i, level), lo, hi);
    }
  }

  /** A slot the range enters and does not fill whole is a link. */
  lemma SlotIsLink(nodes: seq<Node>, info: seq<Place>, k: nat, j: nat, lo: nat, index: nat, nb: nat)
    requires Ok(nodes, info) && Uncompacted(nodes) && k < |nodes| && j < P_L2_SIZE && nb > 0
    requires var level, sb := info[k].level, SlotBase(info[k].base, j, info[k].level);
             && sb <= index < sb + Span(level) && lo <= index && (index == lo || index == sb)
             && Uncut(nodes, nodes[k][j], level, sb, lo, index + nb)
             && !(Aligned(index, level) && nb >= Span(level))
    ensures info[k].level > 0 && nodes[k][j].skip == 1
    ensures EntryOk(info, nodes[k][j], info[k].level, SlotBase(info[k].base, j, info[k].level))
  {
    var level, sb := info[k].level, SlotBase(info[k].base, j, info[k].level);
    assert NodeOk(nodes, info, k);
    BottomLevel(index);
    SlotInside(level, info[k].base, j);
  }

  /** A slot is filled whole by turning it into a leaf. */
  lemma FillWhole(na: seq<Node>, n0: seq<Node>, i0: seq<Place>, k: nat, j: nat, lo: nat, hi: nat, leaf: nat)
    requires Ok(n0, i0) && Uncompacted(n0) && k < |n0| && j < P_L2_SIZE
    requires 0 < leaf < PHYS_MAP_NODE_NIL && lo <= hi == SlotBase(i0[k].base, j, i0[k].level)
    requires Filled(na, Entry(1, k), n0, Entry(1, k), i0[k].level + 1, i0[k].base, lo, hi, leaf)
    ensures var n2: seq<Node> := n0[k := n0[k][j := Entry(0, leaf)]];
            && Ok(n2, i0) && Uncompacted(n2)
            && ChangedBelow(n0, i0, n2, i0, i0[k].level + 1, i0[k].base)
            && Filled(na, Entry(1, k), n2, Entry(1, k), i0[k].level + 1, i0[k].base, lo, hi + Span(i0[k].level), leaf)
  {
    var e := Entry(0, leaf);
    SlotOk(n0, i0, k, j, e);
    SlotFrame(n0, i0, n0, i0, k, j, e);
    assert Filled(n0, n0[k][j], n0, e, i0[k].level, hi, hi, hi + Span(i0[k].level), leaf);
    SlotFilled(na, n0, i0, n0, i0, k, j, e, lo, hi, hi + Span(i0[k].level), leaf);
  }

  /** A slot is filled in part by filling the subtree it links to. */
  lemma FillPart(na: seq<Node>, n0: seq<Node>, i0: seq<Place>, n1: seq<Node>, i1: seq<Place>,
                 k: nat, j: nat, e: Entry, lo: nat, hi: nat, hi': nat, leaf: nat)
    requires Ok(n0, i0) && Ok(n1, i1) && Uncompacted(n1) && k < |n0| && j < P_L2_SIZE
    requires ChangedBelow(n0, i0, n1, i1, i0[k].level, SlotBase(i0[k].base, j, i0[k].level))
    requires EntryOk(i1, e, i0[k].level, SlotBase(i0[k].base, j, i0[k].level)) && e.skip <= 1
    requires Filled(na, Entry(1, k), n0, Entry(1, k), i0[k].level + 1, i0[k].base, lo, hi, leaf)
    requires Filled(n0, n0[k][j], n1, e, i0[k].level, SlotBase(i0[k].base, j, i0[k].level), hi, hi', leaf)
    requires lo <= hi <= hi'
    requires SlotBase(i0[k].base, j, i0[k].level) <= hi
    requires hi' <= SlotBase(i0[k].base, j, i0[k].level) + Span(i0[k].level)
    ensures |n0| <= |n1| == |i1|
    ensures var n2: seq<Node> := n1[k := n1[k][j := e]];
            && Ok(n2, i1) && Uncompacted(n2)
            && ChangedBelow(n0, i0, n2, i1, i0[k].level + 1, i0[k].base)
            && Filled(na, Entry(1, k), n2, Entry(1, k), i0[k].level + 1, i0[k].base, lo, hi', leaf)
  {
    SlotFrame(n0, i0, n1, i1, k, j, e);
    SlotOk(n1, i1, k, j, e);
    SlotFilled(na, n0, i0, n1, i1, k, j, e, lo, hi, hi', leaf);
  }

  /** What one more slot costs, given what the slots before it cost. */
  lemma SlotCost(level: nat, b: nat, index: nat, nb: nat, j: nat, idx: nat, rest: nat, spent: int)
    requires Aligned(b, level + 1) && j < P_L2_SIZE && b <= index < b + Span(level + 1)
    requires idx + rest == index + nb && rest > 0
    requires SlotBase(b, j, level) <= idx < SlotBase(b, j, level) + Span(level)
    requires idx == index || (idx > index && idx == SlotBase(b, j, level))
    requires spent <= 1 + if idx > index && !Aligned(index, level) then level else 0
    ensures spent + SlotBound(level, SlotBase(b, j, level), idx, rest) <= AllocBound(level, b, index, nb)
    ensures idx + rest > SlotBase(b, j, level) + Span(level) ==>
              spent + SlotBound(level, SlotBase(b, j, level), idx, rest) <= 1 + if !Aligned(index, level) then level else 0
  {
    SlotInside(level, b, 0);
    SlotInside(level, b, j);
    if Aligned(idx, level) { AlignedIn(idx, SlotBase(b, j, level), level); }
    hide SlotBase, Aligned, Span;
    if level > 0 { SpanStep(level); }
  }

  lemma SpanStep(level: nat)
    requires level > 0
    ensures Span(level - 1 + 1) == Span(level)
  {}

  lemma BottomLevel(p: nat)
    ensures Aligned(p, 0) && Span(0) == 1
  {}

  lemma FilledNothing(n0: seq<Node>, i0: seq<Place>, e: Entry, l: nat, b: nat, p: nat, leaf: nat)
    requires Ok(n0, i0)
    ensures Filled(n0, e, n0, e, l, b, p, p, leaf)
    ensures ChangedBelow(n0, i0, n0, i0, l, b)
  {}

  lemma FilledTrans(n0: seq<Node>, e0: Entry, n1: seq<Node>, e1: Entry, n2: seq<Node>, e2: Entry,
                    l: nat, b: nat, p: nat, lo: nat, hi: nat, leaf: nat)
    requires Filled(n0, e0, n1, e1, l, b, p, p, 0) && Filled(n1, e1, n2, e2, l, b, lo, hi, leaf)
    ensures Filled(n0, e0, n2, e2, l, b, lo, hi, leaf)
  {
    forall p | b <= p < b + Span(l)
      ensures Walk(n2, e2, l, p) == if lo <= p < hi then leaf else Walk(n0, e0, l, p)
    {
      assert Walk(n1, e1, l, p) == Walk(n0, e0, l, p);
    }
  }

  lemma LinkPlace(nodes: seq<Node>, info: seq<Place>, k: nat, level: nat, b: nat)
    requires Ok(nodes, info) && EntryOk(info, Entry(1, k), level + 1, b) && k != PHYS_MAP_NODE_NIL
    ensures k < |info| == |nodes| && info[k] == Place(level, b)
  {}

  lemma KeepsPlaces(n0: seq<Node>, i0: seq<Place>, n1: seq<Node>, i1: seq<Place>, e: Entry, l: nat, b: nat)
    requires ChangedBelow(n0, i0, n1, i1, l, b) && EntryOk(i0, e, l, b)
    ensures EntryOk(i1, e, l, b)
  {
    if e.skip != 0 && e.ptr != PHYS_MAP_NODE_NIL { assert i1[e.ptr] == i1[..|i0|][e.ptr]; }
  }
}
