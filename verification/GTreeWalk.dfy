/** Reading the tree: lookup, height, and the walks along the threads, on values. */
module GTreeWalk {
  import opened AvlShape
  import opened GTreeStore

  /** The node after the one at (c, t) is the first of its right subtree, if there is one. */
  lemma {:induction false} StepDown<K, V>(c: Path<Item<K, V>>, t: Tree<Item<K, V>>) returns (c': Path<Item<K, V>>, t': Tree<Item<K, V>>)
    requires t.Bin? && t.r.Bin?
    ensures Plug(c', t') == Plug(c, t) && t' == Leftmost(t.r) && t'.l.Nil?
    ensures Before(c') + Flat(t'.l) == Before(c) + Flat(t.l) + [t.n]
  {
    var base := InRight(c, t.l, t.n, t.b);
    c', t' := Spine(base, t.r), Leftmost(t.r);
    SpinePlug(base, t.r);
    assert Before(c') + [] == Before(c');
  }

  /** Otherwise it is the nearest node that has this one on its left: the thread's target. */
  lemma {:induction false} StepUp<K, V>(c: Path<Item<K, V>>, t: Tree<Item<K, V>>) returns (c': Path<Item<K, V>>, t': Tree<Item<K, V>>)
    requires DistinctPath(c)
    ensures Hi(c) == NULL <==> After(c) == []
    ensures Hi(c) != NULL ==>
              && Plug(c', t') == Plug(c, t) && t'.Bin? && t'.n.ref == Hi(c)
              && Before(c') + Flat(t'.l) == Before(c) + Flat(t)
    decreases c
  {
    c', t' := c, t;
    match c
    case Top =>
    case InLeft(up, n, b, r) => c', t' := up, Bin(t, n, b, r);
    case InRight(up, l, n, b) =>
      c', t' := StepUp(up, Bin(l, n, b, t));
      assert Before(up) + (Flat(l) + [n] + Flat(t)) == (Before(up) + Flat(l) + [n]) + Flat(t);
  }

  /** Nodes listed before the one at (c, t) lie outside it and its right subtree. */
  lemma {:induction false} ListedElsewhere<K, V>(c: Path<Item<K, V>>, t: Tree<Item<K, V>>)
    requires t.Bin?
    ensures forall x :: x in Before(c) + Flat(t.l) ==> x.ref in PathRefs(c) + Refs(t.l)
  {
    ListedInTree(t.l);
    ListedInPath(c);
  }

  lemma {:induction false} ListedInTree<K, V>(t: Tree<Item<K, V>>)
    ensures forall x :: x in Flat(t) ==> x.ref in Refs(t)
    ensures forall a :: a in Refs(t) ==> exists x :: x in Flat(t) && x.ref == a
  {
    if t.Bin? {
      ListedInTree(t.l);
      ListedInTree(t.r);
      forall a | a in Refs(t) ensures exists x :: x in Flat(t) && x.ref == a {
        if a == t.n.ref { assert t.n in Flat(t); }
        else if a in Refs(t.l) { var x :| x in Flat(t.l) && x.ref == a; assert x in Flat(t); }
        else { var x :| x in Flat(t.r) && x.ref == a; assert x in Flat(t); }
      }
    }
  }

  lemma {:induction false} ListedInPath<K, V>(c: Path<Item<K, V>>)
    ensures forall x :: x in Before(c) ==> x.ref in PathRefs(c)
  {
    match c
    case Top =>
    case InLeft(up, n, b, r) => ListedInPath(up);
    case InRight(up, l, n, b) => ListedInPath(up); ListedInTree(l);
  }

  /** The addresses of a list of nodes. */
  ghost function RefsOf<K, V>(s: seq<Item<K, V>>): set<nat> {
    set x | x in s :: x.ref
  }

  /** g_tree_height adds up what the balances say along the left edge. */
  lemma {:induction false} HeightByBalance<N>(t: Tree<N>)
    requires Avl(t) && t.Bin?
    ensures Height(t) == 1 + Max(t.b, 0) + Height(t.l)
  {}
}
