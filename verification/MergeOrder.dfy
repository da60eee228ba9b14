/** What a stable merge sort computes: the order of the nodes of a list. Nodes are numbers,
    and `le(x, y)` says that the data of `x` compares as at most that of `y`. */
module MergeOrder {

  type Order = (nat, nat) -> bool

  ghost predicate TotalOrder(le: Order) {
    && (forall a, b :: le(a, b) || le(b, a))
    && (forall a, b, c :: le(a, b) && le(b, c) ==> le(a, c))
  }

  lemma Total(le: Order, a: nat, b: nat)
    requires TotalOrder(le)
    ensures le(a, b) || le(b, a)
  {}

  lemma Transitive(le: Order, a: nat, b: nat, c: nat)
    requires TotalOrder(le) && le(a, b) && le(b, c)
    ensures le(a, c)
  {}

  function Merged(le: Order, a: seq<nat>, b: seq<nat>): seq<nat>
    decreases |a| + |b|
  {
    if a == [] then b
    else if b == [] then a
    else if le(a[0], b[0]) then [a[0]] + Merged(le, a[1..], b)
    else [b[0]] + Merged(le, a, b[1..])
  }

  function Times(p: seq<nat>, x: nat): nat { multiset(p)[x] }

  lemma TimesStep(y: nat, p: seq<nat>, x: nat)
    ensures Times([y] + p, x) == Times(p, x) + if x == y then 1 else 0
  {}

  lemma {:induction false} MergedTimes(le: Order, a: seq<nat>, b: seq<nat>, x: nat)
    ensures Times(Merged(le, a, b), x) == Times(a, x) + Times(b, x)
    decreases |a| + |b|
  {
    if a != [] && b != [] {
      hide Times;
      assert a == [a[0]] + a[1..] && b == [b[0]] + b[1..];
      TimesStep(a[0], a[1..], x);
      TimesStep(b[0], b[1..], x);
      if le(a[0], b[0]) {
        MergedTimes(le, a[1..], b, x);
        TimesStep(a[0], Merged(le, a[1..], b), x);
      } else {
        MergedTimes(le, a, b[1..], x);
        TimesStep(b[0], Merged(le, a, b[1..]), x);
      }
    }
  }

  lemma MergedMultiset(le: Order, a: seq<nat>, b: seq<nat>)
    ensures multiset(Merged(le, a, b)) == multiset(a) + multiset(b)
  {
    hide Merged;
    forall x: nat ensures multiset(Merged(le, a, b))[x] == multiset(a)[x] + multiset(b)[x] {
      MergedTimes(le, a, b, x);
    }
  }

  lemma SameMembers(p: seq<nat>, a: seq<nat>, b: seq<nat>)
    requires multiset(p) == multiset(a) + multiset(b)
    ensures forall x :: x in p <==> x in a || x in b
    ensures |p| == |a| + |b|
  {
    forall x ensures x in p <==> x in a || x in b {
      assert x in p <==> x in multiset(p);
      assert x in a <==> x in multiset(a);
      assert x in b <==> x in multiset(b);
    }
    assert |multiset(p)| == |p| && |multiset(a)| == |a| && |multiset(b)| == |b|;
  }

  /** Merging loses and adds no node. */
  lemma MergedSame(le: Order, a: seq<nat>, b: seq<nat>)
    ensures multiset(Merged(le, a, b)) == multiset(a) + multiset(b)
    ensures forall x :: x in Merged(le, a, b) <==> x in a || x in b
    ensures |Merged(le, a, b)| == |a| + |b|
  {
    hide Merged;
    MergedMultiset(le, a, b);
    SameMembers(Merged(le, a, b), a, b);
  }

  ghost predicate Sorted(le: Order, p: seq<nat>) {
    forall i, j :: 0 <= i < j < |p| ==> le(p[i], p[j])
  }

  /** `x` comes before everything in `p`. */
  ghost predicate Below(le: Order, x: nat, p: seq<nat>) {
    forall y :: y in p ==> le(x, y)
  }

  lemma PrependSorted(le: Order, x: nat, p: seq<nat>)
    requires Sorted(le, p) && Below(le, x, p)
    ensures Sorted(le, [x] + p)
  {}

  lemma HeadBelow(le: Order, p: seq<nat>)
    requires TotalOrder(le) && p != [] && Sorted(le, p)
    ensures Below(le, p[0], p) && Sorted(le, p[1..])
  {
    Total(le, p[0], p[0]);
  }

  lemma BelowTrans(le: Order, x: nat, y: nat, p: seq<nat>)
    requires TotalOrder(le) && le(x, y) && Below(le, y, p)
    ensures Below(le, x, p)
  {
    forall z | z in p ensures le(x, z) { Transitive(le, x, y, z); }
  }

  /** Merging sorted lists sorts them. */
  lemma {:induction false} MergedSorted(le: Order, a: seq<nat>, b: seq<nat>)
    requires TotalOrder(le) && Sorted(le, a) && Sorted(le, b)
    ensures Sorted(le, Merged(le, a, b))
    decreases |a| + |b|
  {
    if a != [] && b != [] {
      hide TotalOrder, Sorted;
      HeadBelow(le, a);
      HeadBelow(le, b);
      if le(a[0], b[0]) {
        MergedSorted(le, a[1..], b);
        MergedSame(le, a[1..], b);
        BelowTrans(le, a[0], b[0], b);
        PrependSorted(le, a[0], Merged(le, a[1..], b));
      } else {
        Total(le, a[0], b[0]);
        MergedSorted(le, a, b[1..]);
        MergedSame(le, a, b[1..]);
        BelowTrans(le, b[0], a[0], a);
        PrependSorted(le, b[0], Merged(le, a, b[1..]));
      }
    }
  }

  predicate Equivalent(le: Order, x: nat, key: nat) { le(x, key) && le(key, x) }

  /** The nodes equivalent to `key`, in their order. */
  function Class(le: Order, p: seq<nat>, key: nat): seq<nat> {
    if p == [] then []
    else if Equivalent(le, p[0], key) then [p[0]] + Class(le, p[1..], key)
    else Class(le, p[1..], key)
  }

  lemma {:induction false} ClassConcat(le: Order, p: seq<nat>, q: seq<nat>, key: nat)
    ensures Class(le, p + q, key) == Class(le, p, key) + Class(le, q, key)
  {
    hide Class, Equivalent;
    ClassEmpty(le, [], key);
    if p == [] {
      assert p + q == q;
    } else {
      var x, rest := p[0], p[1..];
      ClassConcat(le, rest, q, key);
      ClassStep(le, x, rest, key);
      ClassStep(le, x, rest + q, key);
      assert p == [x] + rest && p + q == [x] + (rest + q);
    }
  }

  lemma {:induction false} ClassEmpty(le: Order, p: seq<nat>, key: nat)
    requires forall x :: x in p ==> !Equivalent(le, x, key)
    ensures Class(le, p, key) == []
  {
    if p != [] { ClassEmpty(le, p[1..], key); }
  }

  lemma ClassStep(le: Order, x: nat, p: seq<nat>, key: nat)
    ensures Class(le, [x] + p, key) == if Equivalent(le, x, key) then [x] + Class(le, p, key) else Class(le, p, key)
  {
    assert ([x] + p)[1..] == p;
  }

  /** A list whose first node is not at most `x` has no node equivalent to `x`. */
  lemma NoneEquivalent(le: Order, a: seq<nat>, x: nat, key: nat)
    requires TotalOrder(le) && a != [] && Below(le, a[0], a) && !le(a[0], x) && Equivalent(le, x, key)
    ensures Class(le, a, key) == []
  {
    forall y | y in a ensures !Equivalent(le, y, key) {
      assert le(a[0], y);
    }
    ClassEmpty(le, a, key);
  }

  lemma ClassFirst(le: Order, x: nat, m: seq<nat>, a: seq<nat>, b: seq<nat>, key: nat)
    requires Class(le, m, key) == Class(le, a, key) + Class(le, b, key)
    ensures Class(le, [x] + m, key) == Class(le, [x] + a, key) + Class(le, b, key)
    ensures Class(le, a, key) == [] || !Equivalent(le, x, key) ==>
              Class(le, [x] + m, key) == Class(le, a, key) + Class(le, [x] + b, key)
  {
    hide Class, Equivalent;
    ClassStep(le, x, m, key);
    ClassStep(le, x, a, key);
    ClassStep(le, x, b, key);
  }

  /** Merging keeps the order of equivalent nodes, those of the first list first. */
  lemma {:induction false} MergedStable(le: Order, a: seq<nat>, b: seq<nat>, key: nat)
    requires TotalOrder(le) && Sorted(le, a) && Sorted(le, b)
    ensures Class(le, Merged(le, a, b), key) == Class(le, a, key) + Class(le, b, key)
    decreases |a| + |b|
  {
    hide Sorted, TotalOrder, Class, Below;
    ClassEmpty(le, [], key);
    if a != [] && b != [] {
      HeadBelow(le, a);
      HeadBelow(le, b);
      assert a == [a[0]] + a[1..] && b == [b[0]] + b[1..];
      if le(a[0], b[0]) {
        MergedStable(le, a[1..], b, key);
        ClassFirst(le, a[0], Merged(le, a[1..], b), a[1..], b, key);
      } else {
        MergedStable(le, a, b[1..], key);
        if Equivalent(le, b[0], key) { NoneEquivalent(le, a, b[0], key); }
        ClassFirst(le, b[0], Merged(le, a, b[1..]), a, b[1..], key);
      }
    }
  }

  /** The merge sort: halves, sorted and merged. */
  function SortedNodes(le: Order, p: seq<nat>): (q: seq<nat>)
    ensures multiset(q) == multiset(p) && |q| == |p| && forall x :: x in q <==> x in p
    decreases |p|
  {
    if |p| < 2 then p
    else
      var h := |p| / 2;
      assert p == p[..h] + p[h..];
      var a, b := SortedNodes(le, p[..h]), SortedNodes(le, p[h..]);
      var q := Merged(le, a, b);
      MergedSame(le, a, b);
      SameMembers(q, p, []);
      q
  }

  lemma SortedHalves(le: Order, p: seq<nat>)
    requires |p| >= 2
    ensures SortedNodes(le, p) == Merged(le, SortedNodes(le, p[..|p| / 2]), SortedNodes(le, p[|p| / 2..]))
  {}

  /** The sort sorts, and keeps the order of equivalent nodes. */
  lemma {:induction false} SortedStable(le: Order, p: seq<nat>, key: nat)
    requires TotalOrder(le)
    ensures Sorted(le, SortedNodes(le, p))
    ensures Class(le, SortedNodes(le, p), key) == Class(le, p, key)
    decreases |p|
  {
    if |p| >= 2 {
      SortedHalves(le, p);
      hide TotalOrder, Sorted, Class, Merged, SortedNodes;
      var h := |p| / 2;
      var l, r := p[..h], p[h..];
      SortedStable(le, l, key);
      SortedStable(le, r, key);
      MergedSorted(le, SortedNodes(le, l), SortedNodes(le, r));
      MergedStable(le, SortedNodes(le, l), SortedNodes(le, r), key);
      ClassConcat(le, l, r, key);
      assert p == l + r;
    }
  }
}
