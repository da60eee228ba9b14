/** g_list_sort of glib_compat/glib_compat.c: merge sort by relinking the nodes of a doubly
    linked list, whose memory is made explicit. */
module ListSort {
  import opened Addresses
  import opened MergeOrder

  datatype Node<T> = Node(next: nat, prev: nat, data: T)

  type Memory<T> = map<nat, Node<T>>

  function Nth(p: seq<nat>, t: nat): nat { if t < |p| then p[t] else NULL }

  /** The next links run through `p` and end there. */
  ghost predicate Linked<T>(mem: Memory<T>, p: seq<nat>) {
    forall t: nat :: t < |p| ==> p[t] in mem && p[t] != NULL && mem[p[t]].next == Nth(p, t + 1)
  }

  /** Every prev link but the first leads one node back. */
  ghost predicate BackLinked<T>(mem: Memory<T>, p: seq<nat>) {
    forall t: nat :: 0 < t < |p| ==> p[t] in mem && mem[p[t]].prev == p[t - 1]
  }

  ghost predicate Apart(p: seq<nat>, q: seq<nat>) {
    forall x :: x in p ==> x !in q
  }

  /** Only links of the nodes of `p` have changed. */
  ghost predicate Relinked<T>(mem: Memory<T>, mem': Memory<T>, p: seq<nat>) {
    && mem'.Keys == mem.Keys
    && (forall x :: x in mem ==> mem'[x].data == mem[x].data)
    && (forall x :: x in mem && x !in p ==> mem'[x] == mem[x])
  }

  lemma RelinkedTrans<T>(m0: Memory<T>, m1: Memory<T>, m2: Memory<T>, p: seq<nat>, q: seq<nat>)
    requires Relinked(m0, m1, p) && Relinked(m1, m2, p) && forall x :: x in p ==> x in q
    ensures Relinked(m0, m2, q)
  {}

  lemma RelinkedKeeps<T>(mem: Memory<T>, mem': Memory<T>, p: seq<nat>, q: seq<nat>)
    requires Relinked(mem, mem', p) && Apart(p, q)
    ensures Linked(mem, q) ==> Linked(mem', q)
    ensures BackLinked(mem, q) ==> BackLinked(mem', q)
  {}

  /** `q` is linked both ways, and the next link of its last node is still open. */
  ghost predicate Open<T>(mem: Memory<T>, q: seq<nat>) {
    && (forall t: nat :: t < |q| ==> q[t] in mem && q[t] != NULL && (t + 1 < |q| ==> mem[q[t]].next == q[t + 1]))
    && BackLinked(mem, q) && (q != [] ==> mem[q[0]].prev == NULL)
  }

  /** What is left of a list that is being merged. */
  ghost predicate Rest<T>(mem: Memory<T>, r: seq<nat>) {
    Linked(mem, r) && BackLinked(mem, r) && Distinct(r)
  }

  /** In the middle of a merge: `q` is done, `r1` and `r2` are left. */
  ghost predicate Merging<T>(mem: Memory<T>, q: seq<nat>, r1: seq<nat>, r2: seq<nat>) {
    && Open(mem, q) && Rest(mem, r1) && Rest(mem, r2)
    && Distinct(q) && Apart(q, r1) && Apart(q, r2) && Apart(r1, r2)
  }

  function Last(q: seq<nat>): nat { if q == [] then NULL else q[|q| - 1] }

  /** The memory after node `x` was hung behind the last node of `q`. */
  function Hung<T>(mem: Memory<T>, q: seq<nat>, x: nat): Memory<T>
    requires x in mem && (q != [] ==> Last(q) in mem)
  {
    var mem' := if q == [] then mem else mem[Last(q) := mem[Last(q)].(next := x)];
    mem'[x := mem'[x].(prev := Last(q))]
  }

  lemma HungRelinks<T>(mem: Memory<T>, q: seq<nat>, x: nat, p: seq<nat>)
    requires x in mem && (q != [] ==> Last(q) in mem) && x in p && (q != [] ==> Last(q) in p)
    ensures Relinked(mem, Hung(mem, q, x), p)
  {}

  lemma OpenStep<T>(mem: Memory<T>, q: seq<nat>, x: nat)
    requires Open(mem, q) && Distinct(q) && x in mem && x != NULL && x !in q
    ensures q != [] ==> Last(q) in mem
    ensures Open(Hung(mem, q, x), q + [x]) && Distinct(q + [x])
  {
    var n := |q|;
    if n > 0 {
      assert q[n - 1] in mem;
      assert forall t: nat :: t < n - 1 ==> q[t] != q[n - 1];
    }
    var mem', q' := Hung(mem, q, x), q + [x];
    forall t: nat | t < |q'| ensures q'[t] in mem' && q'[t] != NULL && (t + 1 < |q'| ==> mem'[q'[t]].next == q'[t + 1]) {
      if t < n { assert q'[t] == q[t]; }
    }
    forall t: nat | 0 < t < |q'| ensures q'[t] in mem' && mem'[q'[t]].prev == q'[t - 1] {
      if t < n { assert q'[t] == q[t] && q'[t - 1] == q[t - 1]; }
    }
  }

  lemma RestStep<T>(mem: Memory<T>, mem': Memory<T>, r: seq<nat>, p: seq<nat>)
    requires Rest(mem, r) && Relinked(mem, mem', p) && r != [] && (forall y :: y in p ==> y !in r[1..])
    ensures Rest(mem', r[1..])
  {
    var s := r[1..];
    forall t: nat | t < |s| ensures s[t] in mem && s[t] != NULL && mem[s[t]].next == Nth(s, t + 1) && s[t] !in p {
      assert s[t] == r[t + 1] && s[t] in s;
    }
    forall t: nat | 0 < t < |s| ensures s[t] in mem && mem[s[t]].prev == s[t - 1] {
      assert s[t] == r[t + 1] && s[t - 1] == r[t];
    }
  }

  lemma RestKept<T>(mem: Memory<T>, mem': Memory<T>, r: seq<nat>, p: seq<nat>)
    requires Rest(mem, r) && Relinked(mem, mem', p) && Apart(p, r)
    ensures Rest(mem', r)
  {
    RelinkedKeeps(mem, mem', p, r);
  }

  /** Taking the first node of one list. */
  lemma MergingStep<T>(mem: Memory<T>, q: seq<nat>, r1: seq<nat>, r2: seq<nat>)
    requires Merging(mem, q, r1, r2) && r1 != []
    ensures r1[0] in mem && (q != [] ==> Last(q) in mem)
    ensures Merging(Hung(mem, q, r1[0]), q + [r1[0]], r1[1..], r2)
    ensures Hung(mem, q, r1[0])[r1[0]].next == Nth(r1[1..], 0) && (q != [] ==> Last(q) != r1[0])
  {
    var x := r1[0];
    var p := q + [x];
    assert x in r1 && x in mem && x != NULL && mem[x].next == Nth(r1, 1) == Nth(r1[1..], 0);
    assert q != [] ==> Last(q) in q;
    assert x != Last(q);
    OpenStep(mem, q, x);
    var mem' := Hung(mem, q, x);
    HungRelinks(mem, q, x, p);
    TailApart(r1);
    hide Open, Rest, Hung, Distinct, Relinked;
    RestStep(mem, mem', r1, p);
    RestKept(mem, mem', r2, p);
  }

  lemma TailApart(r: seq<nat>)
    requires r != [] && Distinct(r)
    ensures r[0] !in r[1..] && forall y :: y in r[1..] ==> y in r
  {}

  /** Hanging what is left of the last list behind the others finishes the list. */
  lemma MergingDone<T>(mem: Memory<T>, q: seq<nat>, r: seq<nat>)
    requires Merging(mem, q, r, []) && q != [] && r != []
    ensures r[0] in mem && Last(q) in mem
    ensures Linked(Hung(mem, q, r[0]), q + r) && BackLinked(Hung(mem, q, r[0]), q + r)
    ensures q[0] in Hung(mem, q, r[0]) && Hung(mem, q, r[0])[q[0]].prev == NULL
  {
    MergingStep(mem, q, r, []);
    var mem', x, n := Hung(mem, q, r[0]), r[0], |q|;
    var s := q + r;
    assert Open(mem', q + [x]) && Rest(mem', r[1..]);
    assert mem'[x].next == mem[x].next == Nth(r, 1) by { assert x !in q && Last(q) in q; }
    hide Hung, Open, Rest;
    Join(mem', q, r);
  }

  lemma Join<T>(mem: Memory<T>, q: seq<nat>, r: seq<nat>)
    requires q != [] && r != [] && Open(mem, q + [r[0]]) && Rest(mem, r[1..]) && r[0] in mem && mem[r[0]].next == Nth(r, 1)
    requires |r| > 1 ==> r[1] in mem && mem[r[1]].prev == r[0]
    ensures Linked(mem, q + r) && BackLinked(mem, q + r) && q[0] in mem && mem[q[0]].prev == NULL
  {
    var s, o, n := q + r, q + [r[0]], |q|;
    forall t: nat | t < |s| ensures s[t] in mem && s[t] != NULL && mem[s[t]].next == Nth(s, t + 1) {
      if t < n { assert s[t] == o[t] && s[t + 1] == o[t + 1]; } else if t == n { assert o[t] == s[t] == r[0] && Nth(s, n + 1) == Nth(r, 1); } else {
        assert s[t] == r[1..][t - n - 1] && Nth(r[1..], t - n) == Nth(s, t + 1);
      }
    }
    forall t: nat | 0 < t < |s| ensures s[t] in mem && mem[s[t]].prev == s[t - 1] {
      if t <= n { assert s[t] == o[t] && s[t - 1] == o[t - 1]; }
      else if t > n + 1 { assert s[t] == r[1..][t - n - 1] && s[t - 1] == r[1..][t - n - 2]; }
    }
    assert o[0] == q[0];
  }

  lemma MergingSwap<T>(mem: Memory<T>, q: seq<nat>, r1: seq<nat>, r2: seq<nat>)
    requires Merging(mem, q, r1, r2)
    ensures Merging(mem, q, r2, r1)
  {}

  lemma MergedTake(le: Order, q: seq<nat>, r1: seq<nat>, r2: seq<nat>)
    requires r1 != [] && r2 != []
    ensures le(r1[0], r2[0]) ==> q + Merged(le, r1, r2) == (q + [r1[0]]) + Merged(le, r1[1..], r2)
    ensures !le(r1[0], r2[0]) ==> q + Merged(le, r1, r2) == (q + [r2[0]]) + Merged(le, r1, r2[1..])
  {}

  /** `le` is the order the comparison function gives the nodes. */
  ghost predicate Agrees<T>(mem: Memory<T>, cmp: (T, T) -> int, le: Order) {
    forall x, y :: x in mem && y in mem ==> (le(x, y) <==> cmp(mem[x].data, mem[y].data) <= 0)
  }

  class Sorter<T(!new)> {
    const cmp: (T, T) -> int
    var mem: Memory<T>

    /** One step of the merge: the node goes behind the last one. */
    method Take(x: nat, first: nat, l: nat, lprev: nat, ghost q: seq<nat>) returns (first': nat, l': nat, lprev': nat, next: nat)
      requires x in mem && l == lprev == Last(q) && first == Nth(q, 0) && (q != [] ==> l in mem && l != NULL && l != x)
      modifies this
      ensures mem == Hung(old(mem), q, x) && next == mem[x].next
      ensures first' == Nth(q + [x], 0) && l' == lprev' == Last(q + [x])
    {
      first' := first;
      if l == NULL {
        first' := x;
      } else {
        mem := mem[l := mem[l].(next := x)];
      }
      next := mem[x].next;
      l' := x;
      mem := mem[l' := mem[l'].(prev := lprev)];
      lprev' := l';
    }

    /** g_list_sort_merge */
    method SortMerge(l1: nat, l2: nat, ghost p1: seq<nat>, ghost p2: seq<nat>, ghost le: Order) returns (head: nat)
      requires Merging(mem, [], p1, p2) && p1 != [] && p2 != [] && l1 == p1[0] && l2 == p2[0] && Agrees(mem, cmp, le)
      modifies this
      ensures Relinked(old(mem), mem, p1 + p2)
      ensures var q := Merged(le, p1, p2);
              q != [] && head == q[0] && Linked(mem, q) && BackLinked(mem, q) && head in mem && mem[head].prev == NULL
    {
      hide Merging, Merged, Linked, BackLinked, Hung, Relinked;
      var a, b, first, l, lprev := l1, l2, NULL, NULL, NULL;
      ghost var q, r1, r2, p := [], p1, p2, p1 + p2;
      RelinkedSame(mem, p);
      MergingFacts(mem, q, r1, r2);
      while a != NULL && b != NULL
        invariant Merging(mem, q, r1, r2) && a == Nth(r1, 0) && b == Nth(r2, 0)
        invariant l == lprev == Last(q) && first == Nth(q, 0)
        invariant q + Merged(le, r1, r2) == Merged(le, p1, p2)
        invariant Relinked(old(mem), mem, p) && forall x :: x in q || x in r1 || x in r2 ==> x in p
        invariant (r1 != [] || r2 != []) && (q != [] || (r1 != [] && r2 != []))
        decreases |r1| + |r2|
      {
        MergingFacts(mem, q, r1, r2);
        MergedTake(le, q, r1, r2);
        ghost var before := mem;
        AgreesAt(old(mem), mem, p, cmp, a, b);
        if cmp(mem[a].data, mem[b].data) <= 0 {
          MergingStep(mem, q, r1, r2);
          HungRelinks(mem, q, r1[0], p);
          first, l, lprev, a := Take(a, first, l, lprev, q);
          q, r1 := q + [r1[0]], r1[1..];
        } else {
          MergingSwap(mem, q, r1, r2);
          MergingStep(mem, q, r2, r1);
          HungRelinks(mem, q, r2[0], p);
          first, l, lprev, b := Take(b, first, l, lprev, q);
          q, r2 := q + [r2[0]], r2[1..];
          MergingSwap(mem, q, r2, r1);
        }
        RelinkedTrans(old(mem), before, mem, p, p);
      }
      MergingFacts(mem, q, r1, r2);
      MergedEnd(le, q, r1, r2);
      ghost var r := if r1 != [] then r1 else r2;
      if a == NULL { MergingSwap(mem, q, r1, r2); }
      MergingDone(mem, q, r);
      HungRelinks(mem, q, r[0], p);
      ghost var before := mem;
      var rest := if a != NULL then a else b;
      mem := mem[l := mem[l].(next := rest)];
      mem := mem[rest := mem[rest].(prev := l)];
      HungBy(before, q, r[0]);
      RelinkedTrans(old(mem), before, mem, p, p);
      head := first;
    }

    /** The walk to the middle: one pointer goes at half the speed of the other. */
    method Middle(list: nat, ghost p: seq<nat>) returns (l1: nat)
      requires |p| >= 2 && list == p[0] && Linked(mem, p)
      ensures l1 == p[|p| / 2 - 1]
    {
      l1 := list;
      var l2 := mem[list].next;
      ghost var i := 0;
      assert l2 == p[1];
      while true
        invariant 2 * i + 1 < |p| && l1 == p[i] && l2 == p[2 * i + 1]
        decreases |p| - i
      {
        l2 := mem[l2].next;
        if l2 == NULL { break; }
        assert l2 == p[2 * i + 2];
        l2 := mem[l2].next;
        if l2 == NULL { break; }
        l1 := mem[l1].next;
        i := i + 1;
      }
    }

    /** g_list_sort_real: the nodes are relinked in sorted order, and two or more of them are
        linked back as well, whatever their prev links were. */
    method SortReal(list: nat, ghost p: seq<nat>, ghost le: Order) returns (head: nat)
      requires list == Nth(p, 0) && Linked(mem, p) && Distinct(p) && Agrees(mem, cmp, le)
      modifies this
      ensures Relinked(old(mem), mem, p) && head == Nth(SortedNodes(le, p), 0) && Linked(mem, SortedNodes(le, p))
      ensures |p| >= 2 ==> BackLinked(mem, SortedNodes(le, p)) && head in mem && mem[head].prev == NULL
      decreases |p|
    {
      hide SortedNodes, Merged, Relinked, Agrees, Distinct, Hung;
      RelinkedSame(mem, p);
      ShortSorted(le, p);
      if list == NULL { return NULL; }
      if mem[list].next == NULL { return list; }
      var l1 := Middle(list, p);
      var l2 := mem[l1].next;
      ghost var h := |p| / 2;
      ghost var a, b := p[..h], p[h..];
      CutLinks(mem, p, h);
      ghost var m0 := mem;
      mem := mem[l1 := mem[l1].(next := NULL)];
      ghost var m1 := mem;
      AgreesKept(m0, m1, p, cmp, le);
      Halves(p, h);
      hide Linked, BackLinked;
      var x := SortReal(list, a, le);
      ghost var m2, qa := mem, SortedNodes(le, a);
      RelinkedWider(m1, m2, a, p);
      AgreesKept(m1, m2, p, cmp, le);
      RelinkedKeeps(m1, m2, a, b);
      var y := SortReal(l2, b, le);
      ghost var m3, qb := mem, SortedNodes(le, b);
      RelinkedWider(m2, m3, b, p);
      AgreesKept(m2, m3, p, cmp, le);
      SortedApart(le, a, b);
      RelinkedKeeps(m2, m3, b, qa);
      ReadyToMerge(m3, qa, qb);
      head := SortMerge(x, y, qa, qb, le);
      RelinkedWider(m3, mem, qa + qb, p);
      RelinkedTrans(m0, m1, m2, p, p);
      RelinkedTrans(m0, m2, m3, p, p);
      RelinkedTrans(m0, m3, mem, p, p);
      SortedHalves(le, p);
    }

    /** g_list_sort */
    method Sort(list: nat, ghost p: seq<nat>) returns (head: nat, ghost q: seq<nat>)
      requires list == Nth(p, 0) && Linked(mem, p) && Distinct(p)
      modifies this
      ensures Relinked(old(mem), mem, p) && multiset(q) == multiset(p)
      ensures head == Nth(q, 0) && Linked(mem, q)
      ensures |p| >= 2 ==> BackLinked(mem, q) && head in mem && mem[head].prev == NULL
      ensures Comparison(cmp) ==>
                forall i, j :: 0 <= i < j < |q| ==> q[i] in mem && q[j] in mem && cmp(mem[q[i]].data, mem[q[j]].data) <= 0
      ensures Comparison(cmp) ==> forall key :: Class(OrderOf(old(mem), cmp), q, key) == Class(OrderOf(old(mem), cmp), p, key)
    {
      hide SortedNodes, Relinked, Distinct, Class, Sorted;
      ghost var le := OrderOf(mem, cmp);
      assert Agrees(mem, cmp, le);
      q := SortedNodes(le, p);
      head := SortReal(list, p, le);
      if Comparison(cmp) {
        OrderOfTotal(old(mem), cmp);
        forall key ensures Class(le, q, key) == Class(le, p, key) { SortedStable(le, p, key); }
        SortedStable(le, p, 0);
        SortedData(old(mem), mem, p, cmp, q);
      }
    }
  }

  /** The comparison function is a total preorder on the data. */
  ghost predicate Comparison<T(!new)>(cmp: (T, T) -> int) {
    && (forall a, b :: cmp(a, b) <= 0 || cmp(b, a) <= 0)
    && (forall a, b, c :: cmp(a, b) <= 0 && cmp(b, c) <= 0 ==> cmp(a, c) <= 0)
  }

  /** The order of the nodes by their data; what is not a node comes last. */
  function OrderOf<T>(mem: Memory<T>, cmp: (T, T) -> int): Order {
    (x, y) => if x in mem then y !in mem || cmp(mem[x].data, mem[y].data) <= 0 else y !in mem
  }

  lemma OrderOfTotal<T(!new)>(mem: Memory<T>, cmp: (T, T) -> int)
    requires Comparison(cmp)
    ensures TotalOrder(OrderOf(mem, cmp))
  {
    var le := OrderOf(mem, cmp);
    forall a: nat, b: nat ensures le(a, b) || le(b, a) {
      if a in mem && b in mem { assert cmp(mem[a].data, mem[b].data) <= 0 || cmp(mem[b].data, mem[a].data) <= 0; }
    }
    forall a: nat, b: nat, c: nat | le(a, b) && le(b, c) ensures le(a, c) {
      if a in mem && b in mem && c in mem {
        assert cmp(mem[a].data, mem[b].data) <= 0 && cmp(mem[b].data, mem[c].data) <= 0;
      }
    }
  }

  lemma SortedData<T>(mem: Memory<T>, mem': Memory<T>, p: seq<nat>, cmp: (T, T) -> int, q: seq<nat>)
    requires Sorted(OrderOf(mem, cmp), q) && Relinked(mem, mem', p) && Linked(mem', q)
    ensures forall i, j :: 0 <= i < j < |q| ==> q[i] in mem' && q[j] in mem' && cmp(mem'[q[i]].data, mem'[q[j]].data) <= 0
  {
    forall i, j | 0 <= i < j < |q| ensures q[i] in mem' && q[j] in mem' && cmp(mem'[q[i]].data, mem'[q[j]].data) <= 0 {
      assert OrderOf(mem, cmp)(q[i], q[j]);
    }
  }

  lemma ShortSorted(le: Order, p: seq<nat>)
    ensures |p| < 2 ==> SortedNodes(le, p) == p
  {}

  lemma CutLinks<T>(mem: Memory<T>, p: seq<nat>, h: nat)
    requires Linked(mem, p) && Distinct(p) && 0 < h < |p|
    ensures p[h - 1] in mem && mem[p[h - 1]].next == p[h] == Nth(p[h..], 0) && p[0] == Nth(p[..h], 0)
    ensures var mem' := mem[p[h - 1] := mem[p[h - 1]].(next := NULL)];
            Linked(mem', p[..h]) && Linked(mem', p[h..]) && Relinked(mem, mem', p)
  {
    var x, mem' := p[h - 1], mem[p[h - 1] := mem[p[h - 1]].(next := NULL)];
    assert forall t: nat :: t < |p| && t != h - 1 ==> p[t] != x;
    forall t: nat | t < h ensures p[..h][t] in mem' && p[..h][t] != NULL && mem'[p[..h][t]].next == Nth(p[..h], t + 1) {
      assert p[..h][t] == p[t];
    }
    forall t: nat | t < |p| - h ensures p[h..][t] in mem' && p[h..][t] != NULL && mem'[p[h..][t]].next == Nth(p[h..], t + 1) {
      assert p[h..][t] == p[h + t] && Nth(p[h..], t + 1) == Nth(p, h + t + 1);
    }
  }

  lemma Halves(p: seq<nat>, h: nat)
    requires Distinct(p) && h <= |p|
    ensures Distinct(p[..h]) && Distinct(p[h..]) && Apart(p[..h], p[h..])
    ensures forall x :: x in p[..h] || x in p[h..] ==> x in p
  {}

  lemma RelinkedWider<T>(mem: Memory<T>, mem': Memory<T>, p: seq<nat>, q: seq<nat>)
    requires Relinked(mem, mem', p) && forall x :: x in p ==> x in q
    ensures Relinked(mem, mem', q)
  {}

  lemma AgreesKept<T>(mem: Memory<T>, mem': Memory<T>, p: seq<nat>, cmp: (T, T) -> int, le: Order)
    requires Relinked(mem, mem', p) && Agrees(mem, cmp, le)
    ensures Agrees(mem', cmp, le)
  {}

  lemma {:induction false} DistinctTimes(p: seq<nat>, x: nat)
    requires Distinct(p)
    ensures Times(p, x) <= 1
  {
    if p != [] {
      DistinctTimes(p[1..], x);
      assert p == [p[0]] + p[1..];
      if Times(p[1..], x) > 0 { assert x in p[1..]; }
    }
  }

  lemma TimesDistinct(p: seq<nat>)
    requires forall x :: Times(p, x) <= 1
    ensures Distinct(p)
  {
    forall i, j | 0 <= i < j < |p| ensures p[i] != p[j] {
      assert p == p[..j] + [p[j]] + p[j + 1..];
      assert Times(p, p[j]) == Times(p[..j], p[j]) + 1 + Times(p[j + 1..], p[j]);
      assert p[i] == p[..j][i];
      assert Times(p[..j], p[i]) > 0;
    }
  }

  lemma SortedDistinct(le: Order, p: seq<nat>)
    requires Distinct(p)
    ensures Distinct(SortedNodes(le, p))
  {
    hide SortedNodes;
    var q := SortedNodes(le, p);
    forall x ensures Times(q, x) <= 1 { DistinctTimes(p, x); }
    TimesDistinct(q);
  }

  lemma SortedApart(le: Order, a: seq<nat>, b: seq<nat>)
    requires Distinct(a) && Distinct(b) && Apart(a, b)
    ensures var qa, qb := SortedNodes(le, a), SortedNodes(le, b);
            && Distinct(qa) && Distinct(qb) && Apart(qa, qb) && Apart(b, qa)
            && forall x :: x in qa + qb ==> x in a || x in b
  {
    hide SortedNodes, Distinct;
    SortedDistinct(le, a);
    SortedDistinct(le, b);
  }

  lemma ReadyToMerge<T>(mem: Memory<T>, qa: seq<nat>, qb: seq<nat>)
    requires Linked(mem, qa) && Linked(mem, qb) && Distinct(qa) && Distinct(qb) && Apart(qa, qb)
    requires (|qa| >= 2 ==> BackLinked(mem, qa)) && (|qb| >= 2 ==> BackLinked(mem, qb))
    ensures Merging(mem, [], qa, qb)
  {}

  lemma RelinkedSame<T>(mem: Memory<T>, p: seq<nat>)
    ensures Relinked(mem, mem, p)
  {}

  lemma HungBy<T>(mem: Memory<T>, q: seq<nat>, x: nat)
    requires x in mem && q != [] && Last(q) in mem
    ensures var m := mem[Last(q) := mem[Last(q)].(next := x)]; Hung(mem, q, x) == m[x := m[x].(prev := Last(q))]
  {}

  lemma AgreesAt<T>(mem: Memory<T>, mem': Memory<T>, p: seq<nat>, cmp: (T, T) -> int, a: nat, b: nat)
    requires Relinked(mem, mem', p) && a in mem' && b in mem'
    ensures a in mem && b in mem && cmp(mem'[a].data, mem'[b].data) == cmp(mem[a].data, mem[b].data)
  {}

  lemma MergedEnd(le: Order, q: seq<nat>, r1: seq<nat>, r2: seq<nat>)
    requires r1 == [] || r2 == []
    ensures q + Merged(le, r1, r2) == q + if r1 == [] then r2 else r1
  {}

  lemma MergingFacts<T>(mem: Memory<T>, q: seq<nat>, r1: seq<nat>, r2: seq<nat>)
    requires Merging(mem, q, r1, r2)
    ensures r1 != [] ==> r1[0] in mem && r1[0] != NULL
    ensures r2 != [] ==> r2[0] in mem && r2[0] != NULL
    ensures q != [] ==> Last(q) in mem && Last(q) != NULL && Last(q) in q
  {}
}
