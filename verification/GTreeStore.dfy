/** Node memory of glib_compat/gtree.c. Addresses map to node records, so that a freed
    node is simply absent and every access has to find its node. A link without a child
    is a thread to the in-order neighbour. */
module GTreeStore {
  import opened AvlShape

  const NULL: nat := 0

  datatype Node<K, V> = Node(key: K, value: V, left: nat, right: nat,
                             balance: int, leftChild: bool, rightChild: bool)

  type Store<K, V> = map<nat, Node<K, V>>

  /** A node's address together with what the node stores. */
  datatype Item<K, V> = Item(ref: nat, key: K, value: V)

  ghost function Refs<K, V>(t: Tree<Item<K, V>>): set<nat> {
    if t.Nil? then {} else Refs(t.l) + {t.n.ref} + Refs(t.r)
  }

  ghost predicate Distinct<K, V>(t: Tree<Item<K, V>>) {
    t.Bin? ==>
      && Refs(t.l) !! Refs(t.r) && t.n.ref !in Refs(t.l) + Refs(t.r) && t.n.ref != NULL
      && Distinct(t.l) && Distinct(t.r)
  }

  function Root<K, V>(t: Tree<Item<K, V>>, thread: nat): nat {
    if t.Nil? then thread else t.n.ref
  }

  /** The record of a node `x` between subtrees `l` and `r` and neighbours `lo` and `hi`. */
  function Record<K, V>(x: Item<K, V>, b: int, l: Tree<Item<K, V>>, r: Tree<Item<K, V>>, lo: nat, hi: nat): Node<K, V> {
    Node(x.key, x.value, Root(l, lo), Root(r, hi), b, l.Bin?, r.Bin?)
  }

  ghost predicate At<K, V>(h: Store<K, V>, a: nat, n: Node<K, V>) {
    a in h && h[a] == n
  }

  /** Memory holds `t`, and `lo` and `hi` are the neighbours of the whole of it. */
  ghost predicate Holds<K, V>(h: Store<K, V>, t: Tree<Item<K, V>>, lo: nat, hi: nat) {
    t.Bin? ==>
      && At(h, t.n.ref, Record(t.n, t.b, t.l, t.r, lo, hi))
      && Holds(h, t.l, lo, t.n.ref) && Holds(h, t.r, t.n.ref, hi)
  }

  ghost predicate Agree<K, V>(h: Store<K, V>, h': Store<K, V>, s: set<nat>) {
    forall a :: a in s && a in h ==> a in h' && h'[a] == h[a]
  }

  lemma {:induction false} HoldsFrame<K, V>(h: Store<K, V>, h': Store<K, V>, t: Tree<Item<K, V>>, lo: nat, hi: nat)
    requires Holds(h, t, lo, hi) && Agree(h, h', Refs(t))
    ensures Holds(h', t, lo, hi)
  {
    if t.Bin? {
      HoldsFrame(h, h', t.l, lo, t.n.ref);
      HoldsFrame(h, h', t.r, t.n.ref, hi);
    }
  }

  /** Same addresses; only those of `s` may hold something else. */
  ghost predicate Changed<K, V>(h: Store<K, V>, h': Store<K, V>, s: set<nat>) {
    h'.Keys == h.Keys && forall a :: a in h && a !in s ==> h'[a] == h[a]
  }

  lemma ChangedFrame<K, V>(h: Store<K, V>, h': Store<K, V>, s: set<nat>, t: Tree<Item<K, V>>, lo: nat, hi: nat)
    requires Holds(h, t, lo, hi) && Changed(h, h', s) && s !! Refs(t)
    ensures Holds(h', t, lo, hi)
  {
    HoldsFrame(h, h', t, lo, hi);
  }

  /** The records of a node and of its right (left) child. */
  lemma {:induction false} OpenRight<K, V>(h: Store<K, V>, t: Tree<Item<K, V>>, lo: nat, hi: nat)
    requires t.Bin? && t.r.Bin? && Holds(h, t, lo, hi) && Distinct(t)
    ensures At(h, t.n.ref, Record(t.n, t.b, t.l, t.r, lo, hi))
    ensures At(h, t.r.n.ref, Record(t.r.n, t.r.b, t.r.l, t.r.r, t.n.ref, hi))
    ensures t.n.ref != t.r.n.ref && t.n.ref in Refs(t) && t.r.n.ref in Refs(t)
  {}

  lemma {:induction false} OpenLeft<K, V>(h: Store<K, V>, t: Tree<Item<K, V>>, lo: nat, hi: nat)
    requires t.Bin? && t.l.Bin? && Holds(h, t, lo, hi) && Distinct(t)
    ensures At(h, t.n.ref, Record(t.n, t.b, t.l, t.r, lo, hi))
    ensures At(h, t.l.n.ref, Record(t.l.n, t.l.b, t.l.l, t.l.r, lo, t.n.ref))
    ensures t.n.ref != t.l.n.ref && t.n.ref in Refs(t) && t.l.n.ref in Refs(t)
  {}

  /** g_tree_node_rotate_left leaves the rotated tree in memory. */
  lemma {:induction false} RotatedLeft<K, V>(h: Store<K, V>, h': Store<K, V>, t: Tree<Item<K, V>>, lo: nat, hi: nat)
    requires t.Bin? && t.r.Bin? && Holds(h, t, lo, hi) && Distinct(t)
    requires Changed(h, h', {t.n.ref, t.r.n.ref})
    requires var t' := RotateLeft(t);
             && At(h', t.n.ref, Record(t.n, t'.l.b, t.l, t.r.l, lo, t.r.n.ref))
             && At(h', t.r.n.ref, Record(t.r.n, t'.b, t'.l, t.r.r, lo, hi))
    ensures Holds(h', RotateLeft(t), lo, hi) && Distinct(RotateLeft(t)) && Refs(RotateLeft(t)) == Refs(t)
  {
    HoldsFrame(h, h', t.l, lo, t.n.ref);
    HoldsFrame(h, h', t.r.l, t.n.ref, t.r.n.ref);
    HoldsFrame(h, h', t.r.r, t.r.n.ref, hi);
  }

  lemma {:induction false} RotatedRight<K, V>(h: Store<K, V>, h': Store<K, V>, t: Tree<Item<K, V>>, lo: nat, hi: nat)
    requires t.Bin? && t.l.Bin? && Holds(h, t, lo, hi) && Distinct(t)
    requires Changed(h, h', {t.n.ref, t.l.n.ref})
    requires var t' := RotateRight(t);
             && At(h', t.n.ref, Record(t.n, t'.r.b, t.l.r, t.r, t.l.n.ref, hi))
             && At(h', t.l.n.ref, Record(t.l.n, t'.b, t.l.l, t'.r, lo, hi))
    ensures Holds(h', RotateRight(t), lo, hi) && Distinct(RotateRight(t)) && Refs(RotateRight(t)) == Refs(t)
  {
    HoldsFrame(h, h', t.r, t.n.ref, hi);
    HoldsFrame(h, h', t.l.l, lo, t.l.n.ref);
    HoldsFrame(h, h', t.l.r, t.l.n.ref, t.n.ref);
  }

  /** In-order neighbours of the hole at the end of a path. */
  function Lo<K, V>(c: Path<Item<K, V>>): nat {
    match c
    case Top => NULL
    case InLeft(up, _, _, _) => Lo(up)
    case InRight(_, _, n, _) => n.ref
  }

  function Hi<K, V>(c: Path<Item<K, V>>): nat {
    match c
    case Top => NULL
    case InLeft(_, n, _, _) => n.ref
    case InRight(up, _, _, _) => Hi(up)
  }

  ghost function PathRefs<K, V>(c: Path<Item<K, V>>): set<nat> {
    match c
    case Top => {}
    case InLeft(up, n, _, r) => PathRefs(up) + {n.ref} + Refs(r)
    case InRight(up, l, n, _) => PathRefs(up) + {n.ref} + Refs(l)
  }

  /** Memory holds everything around the hole in which `t` sits. */
  ghost predicate HoldsPath<K, V>(h: Store<K, V>, c: Path<Item<K, V>>, t: Tree<Item<K, V>>)
    decreases c
  {
    match c
    case Top => true
    case InLeft(up, n, b, r) =>
      && At(h, n.ref, Record(n, b, t, r, Lo(up), Hi(up)))
      && Holds(h, r, n.ref, Hi(up)) && HoldsPath(h, up, Bin(t, n, b, r))
    case InRight(up, l, n, b) =>
      && At(h, n.ref, Record(n, b, l, t, Lo(up), Hi(up)))
      && Holds(h, l, Lo(up), n.ref) && HoldsPath(h, up, Bin(l, n, b, t))
  }

  ghost predicate DistinctPath<K, V>(c: Path<Item<K, V>>) {
    match c
    case Top => true
    case InLeft(up, n, _, r) =>
      && n.ref != NULL && n.ref !in PathRefs(up) && n.ref !in Refs(r) && Refs(r) !! PathRefs(up)
      && Distinct(r) && DistinctPath(up)
    case InRight(up, l, n, _) =>
      && n.ref != NULL && n.ref !in PathRefs(up) && n.ref !in Refs(l) && Refs(l) !! PathRefs(up)
      && Distinct(l) && DistinctPath(up)
  }

  ghost predicate Zipped<K, V>(h: Store<K, V>, c: Path<Item<K, V>>, t: Tree<Item<K, V>>) {
    && Holds(h, t, Lo(c), Hi(c)) && HoldsPath(h, c, t)
    && Distinct(t) && DistinctPath(c) && Refs(t) !! PathRefs(c)
  }

  /** A tree in memory can be looked at from any of its subtrees. */
  lemma {:induction false} Zip<K, V>(h: Store<K, V>, c: Path<Item<K, V>>, t: Tree<Item<K, V>>)
    ensures Zipped(h, c, t) <==> Zipped(h, Top, Plug(c, t))
    ensures Refs(Plug(c, t)) == Refs(t) + PathRefs(c)
    decreases c
  {
    match c
    case Top =>
    case InLeft(up, n, b, r) => Zip(h, up, Bin(t, n, b, r));
    case InRight(up, l, n, b) => Zip(h, up, Bin(l, n, b, t));
  }

  lemma {:induction false} PathFrame<K, V>(h: Store<K, V>, h': Store<K, V>, c: Path<Item<K, V>>, t: Tree<Item<K, V>>)
    requires HoldsPath(h, c, t) && Agree(h, h', PathRefs(c))
    ensures HoldsPath(h', c, t)
    decreases c
  {
    match c
    case Top =>
    case InLeft(up, n, b, r) =>
      PathFrame(h, h', up, Bin(t, n, b, r));
      HoldsFrame(h, h', r, n.ref, Hi(up));
    case InRight(up, l, n, b) =>
      PathFrame(h, h', up, Bin(l, n, b, t));
      HoldsFrame(h, h', l, Lo(up), n.ref);
  }

  /** The surroundings see only the root of the subtree in the hole. */
  lemma {:induction false} SameRoot<K, V>(h: Store<K, V>, c: Path<Item<K, V>>, t: Tree<Item<K, V>>, t': Tree<Item<K, V>>)
    requires HoldsPath(h, c, t) && t.Bin? && t'.Bin? && t.n.ref == t'.n.ref
    ensures HoldsPath(h, c, t')
    decreases c
  {
    match c
    case Top =>
    case InLeft(up, n, b, r) => SameRoot(h, up, Bin(t, n, b, r), Bin(t', n, b, r));
    case InRight(up, l, n, b) => SameRoot(h, up, Bin(l, n, b, t), Bin(l, n, b, t'));
  }

  lemma KeepRoot<K, V>(h: Store<K, V>, h': Store<K, V>, c: Path<Item<K, V>>, t: Tree<Item<K, V>>, t': Tree<Item<K, V>>)
    requires Zipped(h, c, t) && t.Bin? && t'.Bin? && t.n.ref == t'.n.ref
    requires Agree(h, h', PathRefs(c)) && Holds(h', t', Lo(c), Hi(c))
    requires Distinct(t') && Refs(t') !! PathRefs(c)
    ensures Zipped(h', c, t')
  {
    PathFrame(h, h', c, t);
    SameRoot(h', c, t, t');
  }

  /** A new leaf becomes the left child of a node that had none. */
  lemma AttachedLeft<K, V>(h: Store<K, V>, h': Store<K, V>, c: Path<Item<K, V>>, t: Tree<Item<K, V>>, x: Item<K, V>)
    requires Zipped(h, c, t) && t.Bin? && t.l.Nil? && x.ref !in h && x.ref != NULL && Refs(t) + PathRefs(c) <= h.Keys
    requires h'.Keys == h.Keys + {x.ref} && forall a :: a in h && a != t.n.ref ==> h'[a] == h[a]
    requires At(h', x.ref, Record(x, 0, Nil, Nil, Lo(c), t.n.ref))
    requires At(h', t.n.ref, Record(t.n, t.b - 1, Bin(Nil, x, 0, Nil), t.r, Lo(c), Hi(c)))
    ensures Zipped(h', c, Bin(Bin(Nil, x, 0, Nil), t.n, t.b - 1, t.r))
    ensures Refs(Bin(Bin(Nil, x, 0, Nil), t.n, t.b - 1, t.r)) == Refs(t) + {x.ref}
  {
    var t' := Bin(Bin(Nil, x, 0, Nil), t.n, t.b - 1, t.r);
    HoldsFrame(h, h', t.r, t.n.ref, Hi(c));
    assert Refs(Bin(Nil, x, 0, Nil)) == {x.ref};
    KeepRoot(h, h', c, t, t');
  }

  lemma AttachedRight<K, V>(h: Store<K, V>, h': Store<K, V>, c: Path<Item<K, V>>, t: Tree<Item<K, V>>, x: Item<K, V>)
    requires Zipped(h, c, t) && t.Bin? && t.r.Nil? && x.ref !in h && x.ref != NULL && Refs(t) + PathRefs(c) <= h.Keys
    requires h'.Keys == h.Keys + {x.ref} && forall a :: a in h && a != t.n.ref ==> h'[a] == h[a]
    requires At(h', x.ref, Record(x, 0, Nil, Nil, t.n.ref, Hi(c)))
    requires At(h', t.n.ref, Record(t.n, t.b + 1, t.l, Bin(Nil, x, 0, Nil), Lo(c), Hi(c)))
    ensures Zipped(h', c, Bin(t.l, t.n, t.b + 1, Bin(Nil, x, 0, Nil)))
    ensures Refs(Bin(t.l, t.n, t.b + 1, Bin(Nil, x, 0, Nil))) == Refs(t) + {x.ref}
  {
    var t' := Bin(t.l, t.n, t.b + 1, Bin(Nil, x, 0, Nil));
    HoldsFrame(h, h', t.l, Lo(c), t.n.ref);
    assert Refs(Bin(Nil, x, 0, Nil)) == {x.ref};
    KeepRoot(h, h', c, t, t');
  }

  /** Rebalancing gave the subtree a new root and the parent's link was redirected. */
  lemma Relinked<K, V>(h: Store<K, V>, h1: Store<K, V>, h': Store<K, V>, c: Path<Item<K, V>>,
                       t: Tree<Item<K, V>>, t': Tree<Item<K, V>>)
    requires Zipped(h, c, t) && t.Bin? && t'.Bin? && !c.Top?
    requires Changed(h, h1, Refs(t)) && Holds(h1, t', Lo(c), Hi(c)) && Distinct(t') && Refs(t') == Refs(t)
    requires Changed(h1, h', {c.n.ref}) && c.n.ref in h1
    requires h'[c.n.ref] == if c.InLeft? then h1[c.n.ref].(left := t'.n.ref) else h1[c.n.ref].(right := t'.n.ref)
    ensures Zipped(h', c, t')
  {
    PathFrame(h, h1, c, t);
    HoldsFrame(h1, h', t', Lo(c), Hi(c));
    match c
    case InLeft(up, n, b, r) =>
      HoldsFrame(h1, h', r, n.ref, Hi(up));
      PathFrame(h1, h', up, Bin(t, n, b, r));
      SameRoot(h', up, Bin(t, n, b, r), Bin(t', n, b, r));
    case InRight(up, l, n, b) =>
      HoldsFrame(h1, h', l, Lo(up), n.ref);
      PathFrame(h1, h', up, Bin(l, n, b, t));
      SameRoot(h', up, Bin(l, n, b, t), Bin(l, n, b, t'));
  }

  /** The parent's balance moved: the walk goes on from the parent. */
  lemma MovedUp<K, V>(h: Store<K, V>, h': Store<K, V>, c: Path<Item<K, V>>, t: Tree<Item<K, V>>, d: int)
    requires Zipped(h, c, t) && t.Bin? && !c.Top? && c.n.ref in h && Changed(h, h', {c.n.ref})
    requires h'[c.n.ref] == h[c.n.ref].(balance := if c.InLeft? then c.b + d else c.b - d)
    ensures Zipped(h', c.up, Parent(c, t, d))
  {
    HoldsFrame(h, h', t, Lo(c), Hi(c));
    match c
    case InLeft(up, n, b, r) =>
      HoldsFrame(h, h', r, n.ref, Hi(up));
      PathFrame(h, h', up, Bin(t, n, b, r));
      SameRoot(h', up, Bin(t, n, b, r), Parent(c, t, d));
    case InRight(up, l, n, b) =>
      HoldsFrame(h, h', l, Lo(up), n.ref);
      PathFrame(h, h', up, Bin(l, n, b, t));
      SameRoot(h', up, Bin(l, n, b, t), Parent(c, t, d));
  }

  lemma {:induction false} LoHiInPath<K, V>(c: Path<Item<K, V>>)
    ensures Lo(c) == NULL || Lo(c) in PathRefs(c)
    ensures Hi(c) == NULL || Hi(c) in PathRefs(c)
  {
    if !c.Top? { LoHiInPath(c.up); }
  }

  /** Comparing the parent's left link with the node tells which child the node is. */
  lemma LeftLinkTells<K, V>(h: Store<K, V>, c: Path<Item<K, V>>, t: Tree<Item<K, V>>)
    requires Zipped(h, c, t) && t.Bin? && !c.Top?
    ensures c.n.ref in h && c.n.ref != NULL && (h[c.n.ref].left == t.n.ref <==> c.InLeft?)
    ensures h[c.n.ref].balance == c.b
  {
    if c.InRight? { LoHiInPath(c.up); }
  }

  /** A subtree was rotated in place and the link to it redirected. */
  lemma ChildRotated<K, V>(h: Store<K, V>, h1: Store<K, V>, h': Store<K, V>, t: Tree<Item<K, V>>, x: Tree<Item<K, V>>, left: bool, lo: nat, hi: nat)
    requires t.Bin? && x.Bin? && Holds(h, t, lo, hi) && Distinct(t) && t.n.ref in h
    requires var y := if left then t.l else t.r;
             && y.Bin? && Changed(h, h1, Refs(y)) && Distinct(x) && Refs(x) == Refs(y)
             && Holds(h1, x, if left then lo else t.n.ref, if left then t.n.ref else hi)
    requires Changed(h1, h', {t.n.ref})
    requires h'[t.n.ref] == if left then h[t.n.ref].(left := x.n.ref) else h[t.n.ref].(right := x.n.ref)
    ensures var t' := if left then t.(l := x) else t.(r := x);
            Holds(h', t', lo, hi) && Distinct(t') && Refs(t') == Refs(t) && Changed(h, h', Refs(t))
  {
    if left {
      HoldsFrame(h1, h', x, lo, t.n.ref);
      HoldsFrame(h, h', t.r, t.n.ref, hi);
    } else {
      HoldsFrame(h1, h', x, t.n.ref, hi);
      HoldsFrame(h, h', t.l, lo, t.n.ref);
    }
  }

  lemma ChangedTrans<K, V>(h: Store<K, V>, h1: Store<K, V>, h2: Store<K, V>, s: set<nat>)
    requires Changed(h, h1, s) && Changed(h1, h2, s)
    ensures Changed(h, h2, s)
  {}

  lemma {:induction false} RootRecord<K, V>(h: Store<K, V>, t: Tree<Item<K, V>>, lo: nat, hi: nat)
    requires t.Bin? && Holds(h, t, lo, hi) && Distinct(t)
    ensures At(h, t.n.ref, Record(t.n, t.b, t.l, t.r, lo, hi)) && t.n.ref != NULL
    ensures Holds(h, t.l, lo, t.n.ref) && Holds(h, t.r, t.n.ref, hi) && Distinct(t.l) && Distinct(t.r)
  {}

  lemma {:induction false} MinInTree<K, V>(t: Tree<Item<K, V>>)
    requires t.Bin?
    ensures Leftmost(t).n.ref in Refs(t) && Rightmost(t).n.ref in Refs(t)
    ensures Refs(Leftmost(t)) <= Refs(t) && Refs(Rightmost(t)) <= Refs(t)
  {
    if t.l.Bin? { MinInTree(t.l); }
    if t.r.Bin? { MinInTree(t.r); }
  }

  lemma {:induction false} NoNull<K, V>(t: Tree<Item<K, V>>)
    requires Distinct(t)
    ensures NULL !in Refs(t)
  {
    if t.Bin? { NoNull(t.l); NoNull(t.r); }
  }

  /** Rewriting the thread of the first node moves the tree behind another neighbour. */
  lemma {:induction false} LowThread<K, V>(h: Store<K, V>, h': Store<K, V>, t: Tree<Item<K, V>>, lo: nat, lo': nat, hi: nat)
    requires t.Bin? && Holds(h, t, lo, hi) && Distinct(t)
    requires var m := Leftmost(t).n.ref;
             && m in h && m in h' && h'[m] == h[m].(left := lo')
             && Agree(h, h', Refs(t) - {m})
    ensures Holds(h', t, lo', hi)
  {
    MinInTree(t);
    if t.l.Bin? {
      MinInTree(t.l);
      LowThread(h, h', t.l, lo, lo', t.n.ref);
    }
    HoldsFrame(h, h', t.r, t.n.ref, hi);
  }

  lemma {:induction false} HighThread<K, V>(h: Store<K, V>, h': Store<K, V>, t: Tree<Item<K, V>>, lo: nat, hi: nat, hi': nat)
    requires t.Bin? && Holds(h, t, lo, hi) && Distinct(t)
    requires var m := Rightmost(t).n.ref;
             && m in h && m in h' && h'[m] == h[m].(right := hi')
             && Agree(h, h', Refs(t) - {m})
    ensures Holds(h', t, lo, hi')
  {
    MinInTree(t);
    if t.r.Bin? {
      MinInTree(t.r);
      HighThread(h, h', t.r, t.n.ref, hi, hi');
    }
    HoldsFrame(h, h', t.l, lo, t.n.ref);
  }

  /** Unlinking the first node of a tree, when another node is above it: that node's
      link either skips to the first node's right subtree or becomes a thread to it. */
  lemma {:induction false} FirstUnlinked<K, V>(h: Store<K, V>, h': Store<K, V>, t: Tree<Item<K, V>>, lo: nat, hi: nat)
    requires t.Bin? && t.l.Bin? && Holds(h, t, lo, hi) && Distinct(t)
    requires var (m, p) := (Leftmost(t), MinParent(t));
             && p.n.ref in h && p.n.ref in h'
             && h'[p.n.ref] == h[p.n.ref].(left := Root(m.r, m.n.ref), leftChild := m.r.Bin?, balance := p.b + 1)
             && Agree(h, h', Refs(t) - {m.n.ref, p.n.ref})
    ensures Holds(h', DropMin(t), Leftmost(t).n.ref, hi)
    ensures Distinct(DropMin(t)) && Refs(DropMin(t)) == Refs(t) - {Leftmost(t).n.ref}
    ensures MinParent(t).n.ref in Refs(t) && MinParent(t).n.ref != Leftmost(t).n.ref
  {
    MinInTree(t.l);
    if t.l.l.Nil? {
      HoldsFrame(h, h', t.l.r, t.l.n.ref, t.n.ref);
    } else {
      MinParentIn(t.l);
      FirstUnlinked(h, h', t.l, lo, t.n.ref);
    }
    HoldsFrame(h, h', t.r, t.n.ref, hi);
  }

  lemma {:induction false} MinParentIn<K, V>(t: Tree<Item<K, V>>)
    requires t.Bin? && t.l.Bin?
    ensures MinParent(t).n.ref in Refs(t)
  {
    if t.l.l.Bin? { MinParentIn(t.l); }
  }

  /** A node without both children is spliced out: `x` takes its place under the parent. */
  lemma {:induction false} Spliced<K, V>(h: Store<K, V>, h': Store<K, V>, c: Path<Item<K, V>>, t: Tree<Item<K, V>>, x: Tree<Item<K, V>>)
    requires Zipped(h, c, t) && t.Bin? && !c.Top?
    requires Holds(h', x, Lo(c), Hi(c)) && Distinct(x) && Refs(x) <= Refs(t)
    requires Agree(h, h', PathRefs(c) - {c.n.ref})
    requires var p := Parent(c, x, 1); At(h', c.n.ref, Record(p.n, p.b, p.l, p.r, Lo(c.up), Hi(c.up)))
    ensures Zipped(h', c.up, Parent(c, x, 1))
    ensures Refs(Parent(c, x, 1)) == Refs(x) + (PathRefs(c) - PathRefs(c.up))
  {
    if c.InLeft? { SplicedLeft(h, h', c, t, x); } else { SplicedRight(h, h', c, t, x); }
  }

  lemma {:induction false} SplicedLeft<K, V>(h: Store<K, V>, h': Store<K, V>, c: Path<Item<K, V>>, t: Tree<Item<K, V>>, x: Tree<Item<K, V>>)
    requires Zipped(h, c, t) && t.Bin? && c.InLeft?
    requires Holds(h', x, Lo(c), Hi(c)) && Distinct(x) && Refs(x) <= Refs(t)
    requires Agree(h, h', PathRefs(c) - {c.n.ref})
    requires At(h', c.n.ref, Record(c.n, c.b + 1, x, c.r, Lo(c.up), Hi(c.up)))
    ensures Zipped(h', c.up, Parent(c, x, 1))
    ensures Refs(Parent(c, x, 1)) == Refs(x) + (PathRefs(c) - PathRefs(c.up))
  {
    HoldsFrame(h, h', c.r, c.n.ref, Hi(c.up));
    PathFrame(h, h', c.up, Bin(t, c.n, c.b, c.r));
    SameRoot(h', c.up, Bin(t, c.n, c.b, c.r), Bin(x, c.n, c.b + 1, c.r));
  }

  lemma {:induction false} SplicedRight<K, V>(h: Store<K, V>, h': Store<K, V>, c: Path<Item<K, V>>, t: Tree<Item<K, V>>, x: Tree<Item<K, V>>)
    requires Zipped(h, c, t) && t.Bin? && c.InRight?
    requires Holds(h', x, Lo(c), Hi(c)) && Distinct(x) && Refs(x) <= Refs(t)
    requires Agree(h, h', PathRefs(c) - {c.n.ref})
    requires At(h', c.n.ref, Record(c.n, c.b - 1, c.l, x, Lo(c.up), Hi(c.up)))
    ensures Zipped(h', c.up, Parent(c, x, 1))
    ensures Refs(Parent(c, x, 1)) == Refs(x) + (PathRefs(c) - PathRefs(c.up))
  {
    HoldsFrame(h, h', c.l, Lo(c.up), c.n.ref);
    PathFrame(h, h', c.up, Bin(c.l, c.n, c.b, t));
    SameRoot(h', c.up, Bin(c.l, c.n, c.b, t), Bin(c.l, c.n, c.b - 1, x));
  }

  /** Another tree, made of the same nodes, was put in the hole. */
  lemma {:induction false} Substituted<K, V>(h: Store<K, V>, h': Store<K, V>, c: Path<Item<K, V>>, t: Tree<Item<K, V>>, t': Tree<Item<K, V>>)
    requires Zipped(h, c, t) && t.Bin? && t'.Bin?
    requires Holds(h', t', Lo(c), Hi(c)) && Distinct(t') && Refs(t') <= Refs(t)
    requires c.Top? || Agree(h, h', PathRefs(c) - {c.n.ref})
    requires !c.Top? ==> c.n.ref in h && c.n.ref in h'
    requires c.InLeft? ==> h'[c.n.ref] == h[c.n.ref].(left := t'.n.ref)
    requires c.InRight? ==> h'[c.n.ref] == h[c.n.ref].(right := t'.n.ref)
    ensures Zipped(h', c, t')
  {
    match c
    case Top =>
    case InLeft(up, n, b, r) =>
      HoldsFrame(h, h', r, n.ref, Hi(up));
      PathFrame(h, h', up, Bin(t, n, b, r));
      SameRoot(h', up, Bin(t, n, b, r), Bin(t', n, b, r));
    case InRight(up, l, n, b) =>
      HoldsFrame(h, h', l, Lo(up), n.ref);
      PathFrame(h, h', up, Bin(l, n, b, t));
      SameRoot(h', up, Bin(l, n, b, t), Bin(l, n, b, t'));
  }

  /** The tree in which the successor has taken the place of the node at the root of `t`. */
  function Promoted<K, V>(t: Tree<Item<K, V>>): (t': Tree<Item<K, V>>)
    requires t.Bin? && t.r.Bin?
    ensures t'.Bin?
  {
    var x := Leftmost(t.r).n;
    if t.r.l.Nil? then Bin(t.l, x, t.b - 1, t.r.r) else Bin(t.l, x, t.b, DropMin(t.r))
  }

  /** The writes of g_tree_remove_internal for a node with two children. */
  lemma {:induction false} PromotedHolds<K, V>(h: Store<K, V>, h': Store<K, V>, t: Tree<Item<K, V>>, lo: nat, hi: nat)
    requires t.Bin? && t.l.Bin? && t.r.Bin? && Holds(h, t, lo, hi) && Distinct(t)
    requires var (x, m, t') := (Leftmost(t.r).n, Rightmost(t.l).n.ref, Promoted(t));
             && At(h', x.ref, Record(x, t'.b, t'.l, t'.r, lo, hi))
             && m in h && m in h' && h'[m] == h[m].(right := x.ref) && Agree(h, h', Refs(t.l) - {m})
    requires t.r.l.Nil? ==> Agree(h, h', Refs(t.r) - {t.r.n.ref})
    requires t.r.l.Bin? ==>
               var (m, p) := (Leftmost(t.r), MinParent(t.r));
               && p.n.ref in h && p.n.ref in h'
               && h'[p.n.ref] == h[p.n.ref].(left := Root(m.r, m.n.ref), leftChild := m.r.Bin?, balance := p.b + 1)
               && Agree(h, h', Refs(t.r) - {m.n.ref, p.n.ref})
    ensures Holds(h', Promoted(t), lo, hi) && Distinct(Promoted(t)) && Refs(Promoted(t)) == Refs(t) - {t.n.ref}
  {
    MinInTree(t.l);
    MinInTree(t.r);
    NoNull(t.r);
    HighThread(h, h', t.l, lo, t.n.ref, Leftmost(t.r).n.ref);
    if t.r.l.Nil? {
      HoldsFrame(h, h', t.r.r, t.r.n.ref, hi);
    } else {
      FirstUnlinked(h, h', t.r, t.n.ref, hi);
    }
  }

  /** Seen from where the balance is restored. */
  lemma {:induction false} PromotedFocus<K, V>(h: Store<K, V>, c: Path<Item<K, V>>, t: Tree<Item<K, V>>)
    requires t.Bin? && t.r.Bin? && Zipped(h, c, Promoted(t))
    ensures var x := Leftmost(t.r);
            var cs := Spine(InRight(c, t.l, x.n, t.b), t.r);
            && !cs.Top? && Zipped(h, cs.up, Parent(cs, x.r, 1))
            && Refs(Parent(cs, x.r, 1)) + PathRefs(cs.up) == Refs(Promoted(t)) + PathRefs(c)
  {
    var x := Leftmost(t.r);
    var base := InRight(c, t.l, x.n, t.b);
    Zip(h, c, Promoted(t));
    if t.r.l.Bin? { DropMinFocus(base, t.r); }
    var cs := Spine(base, t.r);
    Zip(h, cs.up, Parent(cs, x.r, 1));
  }

  /** The thread that pointed at a node about to be spliced out skips it. */
  lemma {:induction false} ThreadSkips<K, V>(h: Store<K, V>, h1: Store<K, V>, c: Path<Item<K, V>>, t: Tree<Item<K, V>>, x: Tree<Item<K, V>>)
    requires Zipped(h, c, t) && t.Bin? && (t.l.Nil? || t.r.Nil?) && x == (if t.l.Nil? then t.r else t.l)
    requires x.Nil? ==> h1 == h
    requires x.Bin? && t.l.Nil? ==>
               var m := Leftmost(x).n.ref; m in h && m in h1 && h1[m] == h[m].(left := Lo(c)) && Changed(h, h1, {m})
    requires x.Bin? && t.l.Bin? ==>
               var m := Rightmost(x).n.ref; m in h && m in h1 && h1[m] == h[m].(right := Hi(c)) && Changed(h, h1, {m})
    ensures Holds(h1, x, Lo(c), Hi(c)) && Distinct(x) && Refs(x) == Refs(t) - {t.n.ref} && Refs(x) !! PathRefs(c)
    ensures Agree(h, h1, PathRefs(c)) && h1.Keys == h.Keys
  {
    if x.Bin? {
      MinInTree(x);
      if t.l.Nil? { LowThread(h, h1, x, t.n.ref, Lo(c), Hi(c)); } else { HighThread(h, h1, x, Lo(c), t.n.ref, Hi(c)); }
    }
  }

  /** The parent's link and balance follow. */
  lemma {:induction false} ParentSkips<K, V>(h: Store<K, V>, h1: Store<K, V>, h2: Store<K, V>, c: Path<Item<K, V>>, t: Tree<Item<K, V>>, x: Tree<Item<K, V>>)
    requires Zipped(h, c, t) && t.Bin? && !c.Top? && Refs(x) <= Refs(t)
    requires Holds(h1, x, Lo(c), Hi(c)) && Distinct(x) && Agree(h, h1, PathRefs(c))
    requires c.n.ref in h1 && Changed(h1, h2, {c.n.ref})
    requires c.InLeft? ==> h2[c.n.ref] == h1[c.n.ref].(left := Root(x, Lo(c)), leftChild := x.Bin?, balance := c.b + 1)
    requires c.InRight? ==> h2[c.n.ref] == h1[c.n.ref].(right := Root(x, Hi(c)), rightChild := x.Bin?, balance := c.b - 1)
    ensures Zipped(h2, c.up, Parent(c, x, 1))
    ensures Refs(Parent(c, x, 1)) + PathRefs(c.up) == Refs(x) + PathRefs(c)
  {
    HoldsFrame(h1, h2, x, Lo(c), Hi(c));
    Spliced(h, h2, c, t, x);
  }

  /** The nodes that a removal with two children writes are all different. */
  lemma {:induction false} PromotionNodes<K, V>(h: Store<K, V>, c: Path<Item<K, V>>, t: Tree<Item<K, V>>)
    requires Zipped(h, c, t) && t.Bin? && t.l.Bin? && t.r.Bin?
    ensures var (x, m) := (Leftmost(t.r), Rightmost(t.l));
            && At(h, t.n.ref, Record(t.n, t.b, t.l, t.r, Lo(c), Hi(c)))
            && x.n.ref in h && h[x.n.ref].rightChild == x.r.Bin? && h[x.n.ref].key == x.n.key && h[x.n.ref].value == x.n.value
            && (x.r.Bin? ==> h[x.n.ref].right == x.r.n.ref)
            && (t.r.l.Nil? ==> x == t.r && h[x.n.ref].right == Root(x.r, Hi(c)))
            && m.n.ref in Refs(t.l) && m.n.ref in h
            && x.n.ref in Refs(t.r) && x.n.ref != NULL
            && Refs(t.l) !! Refs(t.r) && t.n.ref !in Refs(t.l) + Refs(t.r)
            && (t.r.l.Bin? ==>
                  var p := MinParent(t.r);
                  && p.n.ref in h && p.n.ref in Refs(t.r) && p.n.ref != x.n.ref && p.l == x
                  && h[p.n.ref].balance == p.b && h[p.n.ref].leftChild && h[p.n.ref].left == x.n.ref)
  {
    MinInTree(t.l);
    MinInTree(t.r);
    NoNull(t.r);
    FirstRecord(h, t.r, t.n.ref, Hi(c));
    LastRecord(h, t.l, Lo(c), t.n.ref);
  }

  lemma {:induction false} LastRecord<K, V>(h: Store<K, V>, t: Tree<Item<K, V>>, lo: nat, hi: nat)
    requires t.Bin? && Holds(h, t, lo, hi)
    ensures Rightmost(t).n.ref in h
  {
    if t.r.Bin? { LastRecord(h, t.r, t.n.ref, hi); }
  }

  lemma {:induction false} FirstRecord<K, V>(h: Store<K, V>, t: Tree<Item<K, V>>, lo: nat, hi: nat)
    requires t.Bin? && Holds(h, t, lo, hi) && Distinct(t)
    ensures var x := Leftmost(t);
            && x.n.ref in h && h[x.n.ref].rightChild == x.r.Bin? && h[x.n.ref].key == x.n.key && h[x.n.ref].value == x.n.value
            && (x.r.Bin? ==> h[x.n.ref].right == x.r.n.ref)
            && (t.l.Nil? ==> h[x.n.ref].right == Root(x.r, hi))
    ensures t.l.Bin? ==>
              var (x, p) := (Leftmost(t), MinParent(t));
              && p.n.ref in h && p.n.ref in Refs(t) && p.n.ref != x.n.ref && p.l == x
              && h[p.n.ref].balance == p.b && h[p.n.ref].leftChild && h[p.n.ref].left == x.n.ref
  {
    if t.l.Bin? {
      MinInTree(t.l);
      FirstRecord(h, t.l, lo, t.n.ref);
    }
  }

  /** Addresses written while promoting the successor, apart from the parent's link. */
  ghost function PromotionWrites<K, V>(t: Tree<Item<K, V>>): set<nat>
    requires t.Bin? && t.l.Bin? && t.r.Bin?
  {
    {t.n.ref, Leftmost(t.r).n.ref, Rightmost(t.l).n.ref} + if t.r.l.Nil? then {} else {MinParent(t.r).n.ref}
  }

  lemma {:induction false} PromotionStored<K, V>(h: Store<K, V>, h1: Store<K, V>, c: Path<Item<K, V>>, t: Tree<Item<K, V>>)
    requires Zipped(h, c, t) && t.Bin? && t.l.Bin? && t.r.Bin? && Changed(h, h1, PromotionWrites(t))
    requires var (x, m, t') := (Leftmost(t.r).n, Rightmost(t.l).n.ref, Promoted(t));
             && At(h1, x.ref, Record(x, t'.b, t'.l, t'.r, Lo(c), Hi(c)))
             && m in h && m in h1 && h1[m] == h[m].(right := x.ref)
    requires t.r.l.Bin? ==>
               var (m, p) := (Leftmost(t.r), MinParent(t.r));
               && p.n.ref in h && p.n.ref in h1
               && h1[p.n.ref] == h[p.n.ref].(left := Root(m.r, m.n.ref), leftChild := m.r.Bin?, balance := p.b + 1)
    ensures Holds(h1, Promoted(t), Lo(c), Hi(c)) && Distinct(Promoted(t)) && Refs(Promoted(t)) == Refs(t) - {t.n.ref}
    ensures Agree(h, h1, PathRefs(c))
    ensures !c.Top? ==> c.n.ref in h && c.n.ref in h1 && h1[c.n.ref] == h[c.n.ref] && c.n.ref != NULL
  {
    PromotionNodes(h, c, t);
    assert Refs(t) == Refs(t.l) + {t.n.ref} + Refs(t.r);
    PromotedHolds(h, h1, t, Lo(c), Hi(c));
  }

  lemma {:induction false} PromotionLinked<K, V>(h: Store<K, V>, h1: Store<K, V>, h2: Store<K, V>, c: Path<Item<K, V>>, t: Tree<Item<K, V>>)
    requires Zipped(h, c, t) && t.Bin? && t.l.Bin? && t.r.Bin?
    requires Holds(h1, Promoted(t), Lo(c), Hi(c)) && Distinct(Promoted(t)) && Refs(Promoted(t)) <= Refs(t)
    requires Agree(h, h1, PathRefs(c))
    requires c.Top? ==> h2 == h1
    requires !c.Top? ==> c.n.ref in h1 && Changed(h1, h2, {c.n.ref})
    requires c.InLeft? ==> h2[c.n.ref] == h1[c.n.ref].(left := Leftmost(t.r).n.ref)
    requires c.InRight? ==> h2[c.n.ref] == h1[c.n.ref].(right := Leftmost(t.r).n.ref)
    ensures Zipped(h2, c, Promoted(t))
  {
    HoldsFrame(h1, h2, Promoted(t), Lo(c), Hi(c));
    Substituted(h, h2, c, t, Promoted(t));
  }
}
