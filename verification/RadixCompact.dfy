/** Path compression of the radix map. A compacted link no longer compares the
    index bits of the levels it skips, so a walk may stray into a kept subtree;
    these lemmas bound how far a walk can stray. */
module RadixCompact {
  import opened RadixMap

  /** Section `s` is assigned to some page of [b, b + 512^l). */
  ghost predicate Occurs(n: seq<Node>, e: Entry, l: nat, b: nat, s: nat) {
    exists q :: b <= q < b + Span(l) && Walk(n, e, l, q) == s
  }

  /** Every assigned page keeps its section, and whatever a walk that strays now
      reaches was already assigned to some page of the range. */
  ghost predicate Approximates(n0: seq<Node>, e0: Entry, n1: seq<Node>, e1: Entry, l: nat, b: nat) {
    forall p {:trigger Walk(n1, e1, l, p)} {:trigger Walk(n0, e0, l, p)} ::
      && (Walk(n0, e0, l, p) != PHYS_SECTION_UNASSIGNED ==> Walk(n1, e1, l, p) == Walk(n0, e0, l, p))
      && (Walk(n1, e1, l, p) != PHYS_SECTION_UNASSIGNED ==> Occurs(n0, e0, l, b, Walk(n1, e1, l, p)))
  }

  lemma ApproximatesTrans(n0: seq<Node>, e0: Entry, n1: seq<Node>, e1: Entry, n2: seq<Node>, e2: Entry, l: nat, b: nat)
    requires Approximates(n0, e0, n1, e1, l, b) && Approximates(n1, e1, n2, e2, l, b)
    ensures Approximates(n0, e0, n2, e2, l, b)
  {
    forall p
      ensures Walk(n0, e0, l, p) != PHYS_SECTION_UNASSIGNED ==> Walk(n2, e2, l, p) == Walk(n0, e0, l, p)
      ensures Walk(n2, e2, l, p) != PHYS_SECTION_UNASSIGNED ==> Occurs(n0, e0, l, b, Walk(n2, e2, l, p))
    {
      assert Walk(n1, e1, l, p) == Walk(n1, e1, l, p);
      if Walk(n2, e2, l, p) != PHYS_SECTION_UNASSIGNED {
        var q :| b <= q < b + Span(l) && Walk(n1, e1, l, q) == Walk(n2, e2, l, p);
        assert Occurs(n0, e0, l, b, Walk(n1, e1, l, q));
      }
    }
  }

  /** Each slot of node `k` is approximated by the same slot in `n1`. */
  ghost predicate NodeApproximates(n0: seq<Node>, n1: seq<Node>, info: seq<Place>, k: nat)
    requires k < |n0| == |n1| == |info|
  {
    forall j {:trigger n0[k][j]} {:trigger n1[k][j]} :: 0 <= j < P_L2_SIZE ==>
      Approximates(n0, n0[k][j], n1, n1[k][j], info[k].level, SlotBase(info[k].base, j, info[k].level))
  }

  /** Whatever a walk reaches is assigned to some page of the entry's own range. */
  lemma {:induction false} WalkWithin(n: seq<Node>, info: seq<Place>, e: Entry, l: nat, b: nat, p: nat)
    requires Ok(n, info) && EntryOk(info, e, l, b)
    ensures Occurs(n, e, l, b, Walk(n, e, l, p))
    decreases l
  {
    if e.skip == 0 || e.ptr == PHYS_MAP_NODE_NIL {
      assert Walk(n, e, l, b) == Walk(n, e, l, p);
    } else {
      var k, l' := e.ptr, l - e.skip;
      assert NodeOk(n, info, k);
      WalkWithin(n, info, n[k][Slot(p, l')], l', SlotBase(info[k].base, Slot(p, l'), l'), p);
      OccursInSlot(n, info, e, l, b, Slot(p, l'), Walk(n, e, l, p));
    }
  }

  lemma OccursInSlot(n: seq<Node>, info: seq<Place>, e: Entry, l: nat, b: nat, j: nat, s: nat)
    requires Ok(n, info) && EntryOk(info, e, l, b) && e.skip != 0 && e.ptr != PHYS_MAP_NODE_NIL && j < P_L2_SIZE
    requires Occurs(n, n[e.ptr][j], l - e.skip, SlotBase(info[e.ptr].base, j, l - e.skip), s)
    ensures Occurs(n, e, l, b, s)
  {
    var k, l' := e.ptr, l - e.skip;
    assert NodeOk(n, info, k);
    var sb := SlotBase(info[k].base, j, l');
    var q :| sb <= q < sb + Span(l') && Walk(n, n[k][j], l', q) == s;
    assert info[k].base + Span(l' + 1) <= b + Span(l);
    hide SlotBase, Aligned, Span;
    SlotOf(q, l', info[k].base, j);
    assert Walk(n, e, l, q) == s;
  }

  lemma NothingCompacted(n: seq<Node>, info: seq<Place>, k: nat)
    requires Ok(n, info) && k < |n|
    ensures NodeApproximates(n, n, info, k)
    ensures ChangedBelow(n, info, n, info, info[k].level + 1, info[k].base)
  {
    assert NodeOk(n, info, k);
    forall j | 0 <= j < P_L2_SIZE
      ensures Approximates(n, n[k][j], n, n[k][j], info[k].level, SlotBase(info[k].base, j, info[k].level))
    {
      forall p ensures Occurs(n, n[k][j], info[k].level, SlotBase(info[k].base, j, info[k].level), Walk(n, n[k][j], info[k].level, p)) {
        WalkWithin(n, info, n[k][j], info[k].level, SlotBase(info[k].base, j, info[k].level), p);
      }
    }
  }

  /** Compacting the subtree of one slot keeps the node's slots approximated. */
  lemma SlotCompacted(n0: seq<Node>, n: seq<Node>, n1: seq<Node>, info: seq<Place>, k: nat, j: nat, e: Entry)
    requires Ok(n0, info) && Ok(n, info) && Ok(n1, info) && k < |info| && j < P_L2_SIZE
    requires NodeApproximates(n0, n, info, k)
    requires ChangedBelow(n0, info, n, info, info[k].level + 1, info[k].base)
    requires ChangedBelow(n, info, n1, info, info[k].level, SlotBase(info[k].base, j, info[k].level))
    requires EntryOk(info, e, info[k].level, SlotBase(info[k].base, j, info[k].level))
    requires Approximates(n, n[k][j], n1, e, info[k].level, SlotBase(info[k].base, j, info[k].level))
    ensures var n2: seq<Node> := n1[k := n1[k][j := e]];
            && Ok(n2, info) && NodeApproximates(n0, n2, info, k)
            && ChangedBelow(n0, info, n2, info, info[k].level + 1, info[k].base)
            && n2[k] == n[k][j := e]
  {
    var n2: seq<Node> := n1[k := n1[k][j := e]];
    SlotFrame(n, info, n1, info, k, j, e);
    SlotOk(n1, info, k, j, e);
    ChangedTrans(n0, info, n, info, n2, info, info[k].level + 1, info[k].base);
    forall j' | 0 <= j' < P_L2_SIZE
      ensures Approximates(n0, n0[k][j'], n2, n2[k][j'], info[k].level, SlotBase(info[k].base, j', info[k].level))
    {
      SlotCompactedAt(n0, n, n1, info, k, j, e, j');
    }
  }

  lemma SlotCompactedAt(n0: seq<Node>, n: seq<Node>, n1: seq<Node>, info: seq<Place>, k: nat, j: nat, e: Entry, j': nat)
    requires Ok(n0, info) && Ok(n, info) && Ok(n1, info) && k < |info| && j < P_L2_SIZE && j' < P_L2_SIZE
    requires NodeApproximates(n0, n, info, k) && n1[k] == n[k]
    requires ChangedBelow(n, info, n1, info, info[k].level, SlotBase(info[k].base, j, info[k].level))
    requires EntryOk(info, e, info[k].level, SlotBase(info[k].base, j, info[k].level))
    requires Approximates(n, n[k][j], n1, e, info[k].level, SlotBase(info[k].base, j, info[k].level))
    ensures var n2: seq<Node> := n1[k := n1[k][j := e]];
            Approximates(n0, n0[k][j'], n2, n2[k][j'], info[k].level, SlotBase(info[k].base, j', info[k].level))
  {
    var n2: seq<Node> := n1[k := n1[k][j := e]];
    var level, sb := info[k].level, SlotBase(info[k].base, j', info[k].level);
    assert Approximates(n0, n0[k][j'], n, n[k][j'], level, sb);
    assert NodeOk(n, info, k);
    if j' == j {
      ApproximatesTrans(n0, n0[k][j], n, n[k][j], n1, e, level, sb);
      forall p ensures Walk(n2, e, level, p) == Walk(n1, e, level, p) {
        WalkFrame(n1, n2, info, e, level, sb, p);
      }
    } else {
      forall m | 0 <= m < |n| && Below(info[m], level, sb) ensures n2[m] == n[m] {
        BelowSlotsDisjoint(info[m], level, info[k].base, j, j');
      }
      forall p ensures Walk(n2, n[k][j'], level, p) == Walk(n, n[k][j'], level, p) {
        WalkFrame(n, n2, info, n[k][j'], level, sb, p);
      }
    }
  }

  /** A node that is kept: the link to it stays as it is. */
  lemma LinkKept(n0: seq<Node>, n1: seq<Node>, info: seq<Place>, e: Entry, l: nat, b: nat)
    requires Ok(n0, info) && Ok(n1, info) && EntryOk(info, e, l, b) && e.skip != 0 && e.ptr != PHYS_MAP_NODE_NIL
    requires NodeApproximates(n0, n1, info, e.ptr)
    ensures Approximates(n0, e, n1, e, l, b)
  {
    var k, l' := e.ptr, l - e.skip;
    forall p
      ensures Walk(n0, e, l, p) != PHYS_SECTION_UNASSIGNED ==> Walk(n1, e, l, p) == Walk(n0, e, l, p)
      ensures Walk(n1, e, l, p) != PHYS_SECTION_UNASSIGNED ==> Occurs(n0, e, l, b, Walk(n1, e, l, p))
    {
      var j := Slot(p, l');
      assert Approximates(n0, n0[k][j], n1, n1[k][j], l', SlotBase(info[k].base, j, l'));
      assert Walk(n1, e, l, p) == Walk(n1, n1[k][j], l', p);
      if Walk(n1, e, l, p) != PHYS_SECTION_UNASSIGNED {
        OccursInSlot(n0, info, e, l, b, j, Walk(n1, e, l, p));
      }
    }
  }

  /** The entry phys_page_compact writes in place of `e` when slot `v` is the only one in use. */
  function Skipping(e: Entry, child: Entry): Entry {
    Entry(if child.skip == 0 then 0 else e.skip + child.skip, child.ptr)
  }

  /** Exactly slot `v` of the node is in use. */
  ghost predicate Only(node: Node, v: nat) {
    v < P_L2_SIZE && forall j :: 0 <= j < P_L2_SIZE ==> (node[j].ptr != PHYS_MAP_NODE_NIL <==> j == v)
  }

  /** No link leads to a node with one used slot: compression has nothing left to do. */
  ghost predicate Packed(n: seq<Node>, e: Entry, l: nat)
    decreases l, 0
  {
    e.skip != 0 && e.skip <= l && e.ptr < |n| && e.ptr != PHYS_MAP_NODE_NIL ==>
      (forall v: nat :: !Only(n[e.ptr], v)) && PackedUpTo(n, n[e.ptr], l - e.skip, P_L2_SIZE)
  }

  ghost predicate PackedUpTo(n: seq<Node>, node: Node, level: nat, i: nat)
    requires i <= P_L2_SIZE
    decreases level, 1
  {
    forall j :: 0 <= j < i ==> Packed(n, node[j], level)
  }

  lemma {:induction false} PackedFrame(n0: seq<Node>, n1: seq<Node>, info: seq<Place>, e: Entry, l: nat, b: nat)
    requires Ok(n0, info) && EntryOk(info, e, l, b) && Packed(n0, e, l) && |n0| == |n1|
    requires forall k :: 0 <= k < |n0| && Below(info[k], l, b) ==> n1[k] == n0[k]
    ensures Packed(n1, e, l)
    decreases l
  {
    if e.skip != 0 && e.ptr != PHYS_MAP_NODE_NIL {
      var m, l' := e.ptr, l - e.skip;
      assert NodeOk(n0, info, m);
      hide Packed, Only;
      forall j | 0 <= j < P_L2_SIZE ensures Packed(n1, n1[m][j], l') {
        PackedSlot(n0, e, l, j);
        var b' := SlotBase(info[m].base, j, l');
        forall k | 0 <= k < |n0| && Below(info[k], l', b') ensures Below(info[k], l, b) {
          BelowSlot(info[k], l', info[m].base, j);
          assert Span(info[m].level + 1) == Span(l' + 1);
        }
        PackedFrame(n0, n1, info, n0[m][j], l', b');
      }
      PackedNode(n0, n1, e, l);
    }
  }

  lemma PackedSlot(n: seq<Node>, e: Entry, l: nat, j: nat)
    requires Packed(n, e, l) && 0 < e.skip <= l && e.ptr < |n| && e.ptr != PHYS_MAP_NODE_NIL && j < P_L2_SIZE
    ensures Packed(n, n[e.ptr][j], l - e.skip)
  {}

  lemma PackedNode(n0: seq<Node>, n1: seq<Node>, e: Entry, l: nat)
    requires Packed(n0, e, l) && 0 < e.skip <= l && e.ptr < |n0| && e.ptr < |n1| && n1[e.ptr] == n0[e.ptr] && e.ptr != PHYS_MAP_NODE_NIL
    requires forall j :: 0 <= j < P_L2_SIZE ==> Packed(n1, n1[e.ptr][j], l - e.skip)
    ensures Packed(n1, e, l)
  {}

  /** One more slot of a node is packed; the slots before it stay so. */
  lemma PackedMore(n: seq<Node>, n1: seq<Node>, info: seq<Place>, k: nat, i: nat, e: Entry)
    requires Ok(n, info) && Ok(n1, info) && k < |info| && i < P_L2_SIZE && n1[k] == n[k]
    requires ChangedBelow(n, info, n1, info, info[k].level, SlotBase(info[k].base, i, info[k].level))
    requires EntryOk(info, e, info[k].level, SlotBase(info[k].base, i, info[k].level))
    requires PackedUpTo(n, n[k], info[k].level, i) && Packed(n1, e, info[k].level)
    ensures var n2: seq<Node> := n1[k := n1[k][i := e]]; PackedUpTo(n2, n2[k], info[k].level, i + 1)
  {
    var level, n2 := info[k].level, n1[k := n1[k][i := e]];
    assert NodeOk(n, info, k);
    hide Packed;
    forall j | 0 <= j < i + 1 ensures Packed(n2, n2[k][j], level) {
      var sb := SlotBase(info[k].base, j, level);
      if j == i {
        PackedFrame(n1, n2, info, e, level, sb);
      } else {
        forall m | 0 <= m < |n| && Below(info[m], level, sb) ensures n2[m] == n[m] {
          BelowSlotsDisjoint(info[m], level, info[k].base, i, j);
        }
        PackedFrame(n, n2, info, n[k][j], level, sb);
      }
    }
  }

  lemma PackedNone(n: seq<Node>, node: Node, level: nat)
    ensures PackedUpTo(n, node, level, 0)
  {}

  lemma NilPacked(n: seq<Node>, e: Entry, l: nat)
    requires e.ptr == PHYS_MAP_NODE_NIL || e.skip == 0
    ensures Packed(n, e, l)
  {}

  /** A slot that is a leaf or empty is packed. */
  lemma PackedPlain(n: seq<Node>, node: Node, level: nat, i: nat)
    requires i < P_L2_SIZE && PackedUpTo(n, node, level, i) && (node[i].skip == 0 || node[i].ptr == PHYS_MAP_NODE_NIL)
    ensures PackedUpTo(n, node, level, i + 1)
  {
    assert Packed(n, node[i], level);
    hide Packed;
  }

  /** A node without used slots or with two of them is kept. */
  lemma PackedKept(n: seq<Node>, e: Entry, l: nat, valid: nat, first: nat, last: nat)
    requires 0 < e.skip <= l && e.ptr < |n| && PackedUpTo(n, n[e.ptr], l - e.skip, P_L2_SIZE) && valid != 1
    requires valid == 0 ==> forall j :: 0 <= j < P_L2_SIZE ==> n[e.ptr][j].ptr == PHYS_MAP_NODE_NIL
    requires valid > 1 ==> first < last < P_L2_SIZE && n[e.ptr][first].ptr != PHYS_MAP_NODE_NIL && n[e.ptr][last].ptr != PHYS_MAP_NODE_NIL
    ensures Packed(n, e, l)
  {
    hide PackedUpTo;
    forall v: nat ensures !Only(n[e.ptr], v) {
      if valid == 0 && v < P_L2_SIZE { assert n[e.ptr][v].ptr == PHYS_MAP_NODE_NIL; }
    }
  }

  lemma PackedSkipped(n: seq<Node>, e: Entry, l: nat, v: nat)
    requires 0 < e.skip <= l && e.ptr < |n| && v < P_L2_SIZE && PackedUpTo(n, n[e.ptr], l - e.skip, P_L2_SIZE)
    ensures Packed(n, Skipping(e, n[e.ptr][v]), l)
  {
    assert Packed(n, n[e.ptr][v], l - e.skip);
  }

  lemma SkippingOk(n1: seq<Node>, info: seq<Place>, e: Entry, l: nat, b: nat, v: nat)
    requires Ok(n1, info) && EntryOk(info, e, l, b) && e.skip != 0 && e.ptr != PHYS_MAP_NODE_NIL && v < P_L2_SIZE
    requires forall j :: 0 <= j < P_L2_SIZE ==> (n1[e.ptr][j].ptr != PHYS_MAP_NODE_NIL <==> j == v)
    ensures EntryOk(info, Skipping(e, n1[e.ptr][v]), l, b)
  {
    var k, l' := e.ptr, l - e.skip;
    var child := n1[k][v];
    assert NodeOk(n1, info, k);
    var w := if v == 0 then 1 else 0;
    assert EntryOk(info, n1[k][w], l', SlotBase(info[k].base, w, l'));
    if child.skip != 0 {
      BelowSlot(info[child.ptr], l', info[k].base, v);
    }
  }

  /** A node with one used slot is skipped: the bits of that level are no longer compared. */
  lemma LinkSkips(n0: seq<Node>, n1: seq<Node>, info: seq<Place>, e: Entry, l: nat, b: nat, v: nat)
    requires Ok(n0, info) && Ok(n1, info) && EntryOk(info, e, l, b) && e.skip != 0 && e.ptr != PHYS_MAP_NODE_NIL
    requires NodeApproximates(n0, n1, info, e.ptr) && v < P_L2_SIZE
    requires forall j :: 0 <= j < P_L2_SIZE ==> (n1[e.ptr][j].ptr != PHYS_MAP_NODE_NIL <==> j == v)
    ensures Approximates(n0, e, n1, Skipping(e, n1[e.ptr][v]), l, b)
  {
    var k, l' := e.ptr, l - e.skip;
    var child, e' := n1[k][v], Skipping(e, n1[k][v]);
    assert NodeOk(n1, info, k);
    forall p
      ensures Walk(n0, e, l, p) != PHYS_SECTION_UNASSIGNED ==> Walk(n1, e', l, p) == Walk(n0, e, l, p)
      ensures Walk(n1, e', l, p) != PHYS_SECTION_UNASSIGNED ==> Occurs(n0, e, l, b, Walk(n1, e', l, p))
    {
      var j := Slot(p, l');
      assert Approximates(n0, n0[k][j], n1, n1[k][j], l', SlotBase(info[k].base, j, l'));
      assert Approximates(n0, n0[k][v], n1, n1[k][v], l', SlotBase(info[k].base, v, l'));
      assert EntryOk(info, n1[k][j], l', SlotBase(info[k].base, j, l'));
      assert Walk(n1, e', l, p) == Walk(n1, child, l', p);
      if Walk(n1, e', l, p) != PHYS_SECTION_UNASSIGNED {
        OccursInSlot(n0, info, e, l, b, v, Walk(n1, e', l, p));
      }
    }
  }
}
