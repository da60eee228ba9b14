/** g_tree_insert_internal, g_tree_remove_internal and the traversals of
    glib_compat/gtree.c, as in-place updates of a tree in node memory. */
module GTree {
  import opened AvlShape
  import opened GTreeStore
  import opened GTreeWalk
  import opened SortedPairs
  import opened Wrappers

  const MAX_GTREE_HEIGHT: nat := 40

  /** With fewer nodes than this a balanced tree cannot be higher than the path array. */
  const NODES_LIMIT: nat := 433494436

  ghost function Pairs<K, V>(s: seq<Item<K, V>>): (r: seq<(K, V)>)
    ensures |r| == |s|
  {
    seq(|s|, i requires 0 <= i < |s| => (s[i].key, s[i].value))
  }

  lemma PairsOfParts<K, V>(a: seq<Item<K, V>>, x: Item<K, V>, b: seq<Item<K, V>>)
    ensures Pairs(a + b) == Pairs(a) + Pairs(b)
    ensures Pairs(a + [x] + b) == Pairs(a) + [(x.key, x.value)] + Pairs(b)
    ensures Pairs([x] + b) == [(x.key, x.value)] + Pairs(b)
    ensures Pairs(a + [x]) == Pairs(a) + [(x.key, x.value)]
  {}

  lemma FibTable()
    ensures Fib(43) == NODES_LIMIT + 1
  {
    assert Fib(4) == 3 && Fib(5) == 5;
    assert Fib(7) == 13 && Fib(6) == 8;
    assert Fib(9) == 34 && Fib(8) == 21;
    assert Fib(11) == 89 && Fib(10) == 55;
    assert Fib(13) == 233 && Fib(12) == 144;
    assert Fib(15) == 610 && Fib(14) == 377;
    assert Fib(17) == 1597 && Fib(16) == 987;
    assert Fib(19) == 4181 && Fib(18) == 2584;
    assert Fib(21) == 10946 && Fib(20) == 6765;
    assert Fib(23) == 28657 && Fib(22) == 17711;
    assert Fib(25) == 75025 && Fib(24) == 46368;
    assert Fib(27) == 196418 && Fib(26) == 121393;
    assert Fib(29) == 514229 && Fib(28) == 317811;
    assert Fib(31) == 1346269 && Fib(30) == 832040;
    assert Fib(33) == 3524578 && Fib(32) == 2178309;
    assert Fib(35) == 9227465 && Fib(34) == 5702887;
    assert Fib(37) == 24157817 && Fib(36) == 14930352;
    assert Fib(39) == 63245986 && Fib(38) == 39088169;
    assert Fib(41) == 165580141 && Fib(40) == 102334155;
    assert Fib(43) == 433494437 && Fib(42) == 267914296;
  }

  lemma {:induction false} HeightFits<N>(t: Tree<N>)
    requires Avl(t) && Size(t) < NODES_LIMIT
    ensures Height(t) <= MAX_GTREE_HEIGHT
  {
    hide Fib, Avl, Size, Height;
    AvlSize(t);
    FibTable();
    if Height(t) > MAX_GTREE_HEIGHT { FibMono(43, Height(t) + 2); }
  }

  /** The limit is sharp: a balanced search tree of as many nodes has a node whose depth is
      the size of the path array. */
  lemma LimitIsSharp() returns (t: Tree<int>, c: Path<int>)
    ensures Avl(t) && Size(t) == NODES_LIMIT && forall i :: 0 <= i < |Flat(t)| ==> Flat(t)[i] == i
    ensures t.Bin? && Plug(c, Leftmost(t)) == t && Depth(c) == MAX_GTREE_HEIGHT
  {
    hide Fib, Avl, Size, Height, Sparse, Spine, Plug, Flat, Leftmost, Depth;
    t := Sparse(MAX_GTREE_HEIGHT + 1, 0);
    SparseShape(MAX_GTREE_HEIGHT + 1, 0);
    SparseOrder(MAX_GTREE_HEIGHT + 1, 0);
    FibTable();
    SparseDeep(Top, MAX_GTREE_HEIGHT + 1, 0);
    c := Spine(Top, t);
    SpinePlug(Top, t);
    assert Plug(Top, t) == t && Depth<int>(Top) == 0 by { AtTop(t); }
  }

  lemma AtTop<N>(t: Tree<N>)
    ensures Plug(Top, t) == t && Depth<N>(Top) == 0
  {}

  /** path[d] is the node at depth d of the way down, path[0] is NULL. */
  ghost predicate Stacked<K, V>(path: seq<nat>, c: Path<Item<K, V>>) {
    && Depth(c) < |path| && path[Depth(c)] == (if c.Top? then NULL else c.n.ref)
    && (!c.Top? ==> Stacked(path, c.up))
  }

  lemma {:induction false} StackedFrame<K, V>(path: seq<nat>, path': seq<nat>, c: Path<Item<K, V>>)
    requires Stacked(path, c) && |path'| == |path| && path'[..Depth(c) + 1] == path[..Depth(c) + 1]
    ensures Stacked(path', c)
  {
    assert path'[Depth(c)] == path'[..Depth(c) + 1][Depth(c)];
    if !c.Top? {
      assert path'[..Depth(c)] == path'[..Depth(c) + 1][..Depth(c)];
      StackedFrame(path, path', c.up);
    }
  }

  /** The key belongs in the hole of `c`. */
  ghost predicate Between<K, V>(cmp: (K, K) -> int, key: K, c: Path<Item<K, V>>) {
    AllSmaller(cmp, key, Pairs(Before(c))) && AllLarger(cmp, key, Pairs(After(c)))
  }

  /** The list around the node at the end of a path. */
  lemma {:induction false} Around<K, V>(c: Path<Item<K, V>>, t: Tree<Item<K, V>>)
    requires t.Bin?
    ensures Flat(Plug(c, t)) == (Before(c) + Flat(t.l)) + [t.n] + (Flat(t.r) + After(c))
    ensures Pairs(Flat(Plug(c, t))) ==
            Pairs(Before(c) + Flat(t.l)) + [(t.n.key, t.n.value)] + Pairs(Flat(t.r) + After(c))
  {
    FlatPlug(c, t);
    Reassociate(Before(c), Flat(t.l), [t.n], Flat(t.r), After(c));
    var a, b := Before(c) + Flat(t.l), Flat(t.r) + After(c);
    assert a + [t.n] + b == a + ([t.n] + Flat(t.r) + After(c));
    PairsOfParts(a, t.n, b);
  }

  lemma {:induction false} BetweenLeft<K(!new), V>(cmp: (K, K) -> int, key: K, c: Path<Item<K, V>>, t: Tree<Item<K, V>>)
    requires Order(cmp) && t.Bin? && Increasing(cmp, Pairs(Flat(Plug(c, t))))
    requires Between(cmp, key, c) && cmp(key, t.n.key) < 0
    ensures Between(cmp, key, InLeft(c, t.n, t.b, t.r))
  {
    Around(c, t);
    var b := Flat(t.r) + After(c);
    LargerFrom(cmp, Pairs(Before(c) + Flat(t.l)), (t.n.key, t.n.value), Pairs(b), key);
    PairsOfParts([], t.n, b);
    assert [t.n] + Flat(t.r) + After(c) == [t.n] + b;
  }

  lemma {:induction false} BetweenRight<K(!new), V>(cmp: (K, K) -> int, key: K, c: Path<Item<K, V>>, t: Tree<Item<K, V>>)
    requires Order(cmp) && t.Bin? && Increasing(cmp, Pairs(Flat(Plug(c, t))))
    requires Between(cmp, key, c) && cmp(key, t.n.key) > 0
    ensures Between(cmp, key, InRight(c, t.l, t.n, t.b))
  {
    Around(c, t);
    var a := Before(c) + Flat(t.l);
    SmallerUpTo(cmp, Pairs(a), (t.n.key, t.n.value), Pairs(Flat(t.r) + After(c)), key);
    PairsOfParts(a, t.n, []);
  }

  class GTree<K(!new), V> {
    const cmp: (K, K) -> int
    var nodes: Store<K, V>
    var root: nat
    var nnodes: nat
    ghost var tree: Tree<Item<K, V>>

    /** Memory holds exactly the nodes of a threaded, balanced, strictly sorted tree. */
    ghost predicate Valid()
      reads this
    {
      && Order(cmp)
      && root == Root(tree, NULL) && Zipped(nodes, Top, tree) && nodes.Keys == Refs(tree)
      && Avl(tree) && nnodes == Size(tree)
      && Increasing(cmp, Contents())
    }

    ghost function Contents(): seq<(K, V)>
      reads this
    {
      Pairs(Flat(tree))
    }

    /** g_tree_new_full */
    constructor (cmp: (K, K) -> int)
      requires Order(cmp)
      ensures Valid() && Contents() == [] && this.cmp == cmp
    {
      this.cmp := cmp;
      nodes, root, nnodes, tree := map[], NULL, 0, Nil;
    }

    /** g_tree_node_rotate_left */
    method NodeRotateLeft(node: nat, ghost t: Tree<Item<K, V>>, ghost lo: nat, ghost hi: nat) returns (right: nat)
      requires t.Bin? && t.r.Bin? && t.n.ref == node && Holds(nodes, t, lo, hi) && Distinct(t)
      modifies this`nodes
      ensures Holds(nodes, RotateLeft(t), lo, hi) && Distinct(RotateLeft(t)) && Refs(RotateLeft(t)) == Refs(t)
      ensures Changed(old(nodes), nodes, Refs(t)) && right == RotateLeft(t).n.ref
    {
      hide Holds, Distinct, Refs, Height;
      OpenRight(nodes, t, lo, hi);
      right := nodes[node].right;
      if nodes[right].leftChild {
        nodes := nodes[node := nodes[node].(right := nodes[right].left)];
      } else {
        nodes := nodes[node := nodes[node].(rightChild := false)];
        nodes := nodes[right := nodes[right].(leftChild := true)];
      }
      nodes := nodes[right := nodes[right].(left := node)];
      var aBal, bBal := nodes[node].balance, nodes[right].balance;
      if bBal <= 0 {
        nodes := nodes[right := nodes[right].(balance := if aBal >= 1 then bBal - 1 else aBal + bBal - 2)];
        nodes := nodes[node := nodes[node].(balance := aBal - 1)];
      } else {
        nodes := nodes[right := nodes[right].(balance := if aBal <= bBal then aBal - 2 else bBal - 1)];
        nodes := nodes[node := nodes[node].(balance := aBal - bBal - 1)];
      }
      RotatedLeft(old(nodes), nodes, t, lo, hi);
    }

    /** g_tree_node_rotate_right */
    method NodeRotateRight(node: nat, ghost t: Tree<Item<K, V>>, ghost lo: nat, ghost hi: nat) returns (left: nat)
      requires t.Bin? && t.l.Bin? && t.n.ref == node && Holds(nodes, t, lo, hi) && Distinct(t)
      modifies this`nodes
      ensures Holds(nodes, RotateRight(t), lo, hi) && Distinct(RotateRight(t)) && Refs(RotateRight(t)) == Refs(t)
      ensures Changed(old(nodes), nodes, Refs(t)) && left == RotateRight(t).n.ref
    {
      hide Holds, Distinct, Refs, Height;
      OpenLeft(nodes, t, lo, hi);
      left := nodes[node].left;
      if nodes[left].rightChild {
        nodes := nodes[node := nodes[node].(left := nodes[left].right)];
      } else {
        nodes := nodes[node := nodes[node].(leftChild := false)];
        nodes := nodes[left := nodes[left].(rightChild := true)];
      }
      nodes := nodes[left := nodes[left].(right := node)];
      var aBal, bBal := nodes[node].balance, nodes[left].balance;
      if bBal <= 0 {
        nodes := nodes[left := nodes[left].(balance := if bBal > aBal then bBal + 1 else aBal + 2)];
        nodes := nodes[node := nodes[node].(balance := aBal - bBal + 1)];
      } else {
        nodes := nodes[left := nodes[left].(balance := if aBal <= -1 then bBal + 1 else aBal + bBal + 2)];
        nodes := nodes[node := nodes[node].(balance := aBal + 1)];
      }
      RotatedRight(old(nodes), nodes, t, lo, hi);
    }

    /** g_tree_node_balance */
    method NodeBalance(node: nat, ghost t: Tree<Item<K, V>>, ghost lo: nat, ghost hi: nat) returns (node': nat)
      requires t.Bin? && Rotatable(t) && t.n.ref == node && Holds(nodes, t, lo, hi) && Distinct(t)
      modifies this`nodes
      ensures Holds(nodes, Balance(t), lo, hi) && Distinct(Balance(t)) && Refs(Balance(t)) == Refs(t)
      ensures Changed(old(nodes), nodes, Refs(t)) && node' == Balance(t).n.ref
    {
      hide Holds, Distinct, Refs, Height, RotateLeft, RotateRight, Changed;
      node' := node;
      RootRecord(nodes, t, lo, hi);
      ghost var h := nodes;
      if nodes[node].balance < -1 {
        RootRecord(nodes, t.l, lo, node);
        ghost var t' := t;
        if nodes[nodes[node].left].balance > 0 {
          var x := NodeRotateLeft(nodes[node].left, t.l, lo, node);
          ghost var h1 := nodes;
          Unchanged(h, h1, t, Refs(t.l));
          OneWrite(nodes, node, nodes[node].(left := x));
          nodes := nodes[node := nodes[node].(left := x)];
          t' := t.(l := RotateLeft(t.l));
          ChildRotated(h, h1, nodes, t, t'.l, true, lo, hi);
        } else {
          ChangedNot(nodes, Refs(t));
        }
        ghost var h2 := nodes;
        node' := NodeRotateRight(node, t', lo, hi);
        ChangedTrans(h, h2, nodes, Refs(t));
      } else if nodes[node].balance > 1 {
        RootRecord(nodes, t.r, node, hi);
        ghost var t' := t;
        if nodes[nodes[node].right].balance < 0 {
          var x := NodeRotateRight(nodes[node].right, t.r, node, hi);
          ghost var h1 := nodes;
          Unchanged(h, h1, t, Refs(t.r));
          OneWrite(nodes, node, nodes[node].(right := x));
          nodes := nodes[node := nodes[node].(right := x)];
          t' := t.(r := RotateRight(t.r));
          ChildRotated(h, h1, nodes, t, t'.r, false, lo, hi);
        } else {
          ChangedNot(nodes, Refs(t));
        }
        ghost var h2 := nodes;
        node' := NodeRotateLeft(node, t', lo, hi);
        ChangedTrans(h, h2, nodes, Refs(t));
      } else {
        ChangedNot(nodes, Refs(t));
      }
    }

    /** The descent of insert, remove and lookup: ends at the key, or at the node that
        lacks the child the key would be under. The path array is never overrun. */
    method Search(key: K) returns (node: nat, path: seq<nat>, idx: nat, ghost c: Path<Item<K, V>>, ghost t: Tree<Item<K, V>>)
      requires Valid() && root != NULL && nnodes < NODES_LIMIT
      ensures Plug(c, t) == tree && t.Bin? && t.n.ref == node && Between(cmp, key, c)
      ensures cmp(key, t.n.key) < 0 ==> t.l.Nil?
      ensures cmp(key, t.n.key) > 0 ==> t.r.Nil?
      ensures |path| == MAX_GTREE_HEIGHT && idx == Depth(c) + 1 && Stacked(path, c)
    {
      hide Order, Increasing, Avl, Zipped, Pairs, Flat, Before, After, Between, Refs, Height;
      HeightFits(tree);
      path := seq(MAX_GTREE_HEIGHT, _ => NULL);
      idx := 1;
      node := root;
      c, t := Top, tree;
      EmptyBetween<K, V>(cmp, key);
      while true
        invariant Plug(c, t) == tree && t.Bin? && t.n.ref == node && Between(cmp, key, c)
        invariant |path| == MAX_GTREE_HEIGHT && idx == Depth(c) + 1 <= MAX_GTREE_HEIGHT && Stacked(path, c)
        decreases t
      {
        Zip(nodes, c, t);
        ZippedRecord(nodes, c, t);
        PlugHeight(c, t);
        var order := cmp(key, nodes[node].key);
        if order == 0 {
          return;
        } else if order < 0 {
          if !nodes[node].leftChild { return; }
          BetweenLeft(cmp, key, c, t);
          c, t := InLeft(c, t.n, t.b, t.r), t.l;
          PlugHeight(c, t);
          PushPath(path, c.up, c);
          path, idx := path[idx := node], idx + 1;
          node := nodes[node].left;
        } else {
          if !nodes[node].rightChild { return; }
          BetweenRight(cmp, key, c, t);
          c, t := InRight(c, t.l, t.n, t.b), t.r;
          PlugHeight(c, t);
          PushPath(path, c.up, c);
          path, idx := path[idx := node], idx + 1;
          node := nodes[node].right;
        }
      }
    }

    /** The part both balancing loops share: rotate if needed and redirect the parent. */
    method RebalanceAt(node: nat, bparent: nat, leftNode: bool, ghost c: Path<Item<K, V>>, ghost t: Tree<Item<K, V>>)
      returns (node': nat)
      requires Zipped(nodes, c, t) && t.Bin? && t.n.ref == node && Rotatable(t) && (-1 <= t.b <= 1 ==> Balance(t) == t)
      requires bparent == (if c.Top? then NULL else c.n.ref) && (leftNode <==> c.InLeft?) && root == TopRef(c, node)
      modifies this`nodes, this`root
      ensures Zipped(nodes, c, Balance(t)) && node' == Balance(t).n.ref && root == TopRef(c, node')
      ensures nodes.Keys == old(nodes.Keys) && Refs(Balance(t)) == Refs(t)
    {
      hide Zipped, Holds, Distinct, Refs, Height, Balance, Rotatable, RotateLeft, RotateRight;
      node' := node;
      ZippedRecord(nodes, c, t);
      if nodes[node].balance < -1 || nodes[node].balance > 1 {
        ghost var h := nodes;
        ZippedParts(h, c, t);
        node' := NodeBalance(node, t, Lo(c), Hi(c));
        ghost var h1 := nodes;
        if bparent == NULL {
          root := node';
          RelinkedTop(h1, t, Balance(t));
        } else {
          if leftNode {
            nodes := nodes[bparent := nodes[bparent].(left := node')];
          } else {
            nodes := nodes[bparent := nodes[bparent].(right := node')];
          }
          Relinked(h, h1, nodes, c, t, Balance(t));
        }
      }
    }

    /** The loop that ends g_tree_insert_internal. */
    method RestoreGrown(node0: nat, path: seq<nat>, idx0: nat, ghost c0: Path<Item<K, V>>, ghost t0: Tree<Item<K, V>>)
      requires Zipped(nodes, c0, t0) && t0.Bin? && t0.n.ref == node0 && Grown(c0, t0)
      requires Stacked(path, c0) && idx0 == Depth(c0) + 1 && root == TopRef(c0, node0)
      modifies this`nodes, this`root, this`tree
      ensures Zipped(nodes, Top, tree) && Avl(tree) && root == Root(tree, NULL)
      ensures Flat(tree) == Before(c0) + Flat(t0) + After(c0)
      ensures nodes.Keys == old(nodes.Keys) && Refs(tree) == Refs(t0) + PathRefs(c0)
    {
      hide Zipped, Holds, Distinct, Refs, PathRefs, Height, Balance, Rotatable, Grown, Avl, Flat, Before, After, Plug;
      var node, idx := node0, idx0;
      ghost var c, t := c0, t0;
      while true
        invariant Zipped(nodes, c, t) && t.Bin? && t.n.ref == node && Grown(c, t)
        invariant Stacked(path, c) && idx == Depth(c) + 1 && root == TopRef(c, node)
        invariant Before(c) + Flat(t) + After(c) == Before(c0) + Flat(t0) + After(c0)
        invariant nodes.Keys == old(nodes.Keys) && Refs(t) + PathRefs(c) == Refs(t0) + PathRefs(c0)
        decreases c
      {
        idx := idx - 1;
        var bparent := path[idx];
        StepFacts(nodes, c, t);
        GrownStep(c, t);
        var leftNode := bparent != NULL && nodes[bparent].left == node;
        node := RebalanceAt(node, bparent, leftNode, c, t);
        ghost var t1 := Balance(t);
        ZippedRecord(nodes, c, t1);
        if nodes[node].balance == 0 || bparent == NULL {
          tree := Plug(c, t1);
          PluggedTree(nodes, c, t1);
          return;
        }
        ghost var h := nodes;
        if leftNode {
          nodes := nodes[bparent := nodes[bparent].(balance := nodes[bparent].balance - 1)];
        } else {
          nodes := nodes[bparent := nodes[bparent].(balance := nodes[bparent].balance + 1)];
        }
        StepFacts(h, c, t1);
        MovedUp(h, nodes, c, t1, -1);
        FlatParent(c, t1, -1);
        ParentRefs(c, t1, -1);
        node := bparent;
        c, t := c.up, Parent(c, t1, -1);
      }
    }

    /** A new leaf is hung under `node` and takes over its thread on that side. */
    method AttachLeaf(node: nat, key: K, value: V, addr: nat, order: int, ghost c: Path<Item<K, V>>, ghost t: Tree<Item<K, V>>)
      returns (ghost t1: Tree<Item<K, V>>)
      requires Zipped(nodes, c, t) && t.Bin? && t.n.ref == node && addr != NULL && addr !in nodes
      requires Avl(Plug(c, t)) && Refs(t) + PathRefs(c) == nodes.Keys
      requires order < 0 ==> t.l.Nil?
      requires order >= 0 ==> t.r.Nil?
      modifies this`nodes
      ensures Zipped(nodes, c, t1) && t1.Bin? && t1.n == t.n && Grown(c, t1)
      ensures t1 == if order < 0 then Bin(Bin(Nil, Item(addr, key, value), 0, Nil), t.n, t.b - 1, t.r)
                    else Bin(t.l, t.n, t.b + 1, Bin(Nil, Item(addr, key, value), 0, Nil))
      ensures Refs(t1) + PathRefs(c) == nodes.Keys
    {
      hide Zipped, Holds, Distinct, Refs, PathRefs, Height, Grown, Avl, Plug;
      ZippedRecord(nodes, c, t);
      ghost var h, x := nodes, Item(addr, key, value);
      nodes := nodes[addr := Node(key, value, NULL, NULL, 0, false, false)];
      if order < 0 {
        nodes := nodes[addr := nodes[addr].(left := nodes[node].left, right := node)];
        nodes := nodes[node := nodes[node].(left := addr, leftChild := true, balance := nodes[node].balance - 1)];
        t1 := Bin(Bin(Nil, x, 0, Nil), t.n, t.b - 1, t.r);
        AttachedLeft(h, nodes, c, t, x);
        GrownLeft(c, t, x);
      } else {
        nodes := nodes[addr := nodes[addr].(right := nodes[node].right, left := node)];
        nodes := nodes[node := nodes[node].(right := addr, rightChild := true, balance := nodes[node].balance + 1)];
        t1 := Bin(t.l, t.n, t.b + 1, Bin(Nil, x, 0, Nil));
        AttachedRight(h, nodes, c, t, x);
        GrownRight(c, t, x);
      }
    }

    /** g_tree_insert_internal; `addr` is what g_slice_new returns if a node is needed. */
    method InsertInternal(key: K, value: V, replace: bool, addr: nat)
      requires Valid() && nnodes < NODES_LIMIT && addr != NULL && addr !in nodes
      modifies this
      ensures Valid() && Contents() == Inserted(cmp, old(Contents()), key, value, replace)
    {
      hide Zipped, Holds, Distinct, Refs, PathRefs, Height, Grown, Avl, Flat, Before, After, Plug, Pairs, Increasing, Order, Between;
      if root == NULL {
        EmptyTree(nodes, tree);
        SingleNode(key, value, addr, cmp);
        nodes := nodes[addr := Node(key, value, NULL, NULL, 0, false, false)];
        root := addr;
        nnodes := nnodes + 1;
        tree := Bin(Nil, Item(addr, key, value), 0, Nil);
        return;
      }
      var node, path, idx;
      ghost var c, t;
      node, path, idx, c, t := Search(key);
      Zip(nodes, c, t);
      ZippedRecord(nodes, c, t);
      PluggedRoot(c, t);
      var order := cmp(key, nodes[node].key);
      if order == 0 {
        ghost var h, y := nodes, Item(node, if replace then key else t.n.key, value);
        nodes := nodes[node := nodes[node].(value := value)];
        if replace {
          nodes := nodes[node := nodes[node].(key := key)];
        }
        tree := Plug(c, t.(n := y));
        Overwritten(cmp, h, nodes, c, t, y, key, value, replace);
        return;
      }
      ghost var t1 := AttachLeaf(node, key, value, addr, order, c, t);
      nnodes := nnodes + 1;
      RestoreGrown(node, path, idx, c, t1);
      InsertedOrder(cmp, c, t, t1, Item(addr, key, value), replace, Flat(tree));
    }

    /** g_tree_insert and g_tree_replace */
    method Insert(key: K, value: V, addr: nat)
      requires Valid() && nnodes < NODES_LIMIT && addr != NULL && addr !in nodes
      modifies this
      ensures Valid() && Contents() == Inserted(cmp, old(Contents()), key, value, false)
    {
      InsertInternal(key, value, false, addr);
    }

    method Replace(key: K, value: V, addr: nat)
      requires Valid() && nnodes < NODES_LIMIT && addr != NULL && addr !in nodes
      modifies this
      ensures Valid() && Contents() == Inserted(cmp, old(Contents()), key, value, true)
    {
      InsertInternal(key, value, true, addr);
    }

    /** The loop that ends g_tree_remove_internal. */
    method RestoreShrunk(balance0: nat, path: seq<nat>, idx0: nat, ghost c0: Path<Item<K, V>>, ghost t0: Tree<Item<K, V>>)
      requires Zipped(nodes, c0, t0) && t0.Bin? && t0.n.ref == balance0 && Shrunk(c0, t0)
      requires Stacked(path, c0) && idx0 == Depth(c0) + 1 && root == TopRef(c0, balance0)
      modifies this`nodes, this`root, this`tree
      ensures Zipped(nodes, Top, tree) && Avl(tree) && root == Root(tree, NULL)
      ensures Flat(tree) == Before(c0) + Flat(t0) + After(c0)
      ensures nodes.Keys == old(nodes.Keys) && Refs(tree) == Refs(t0) + PathRefs(c0)
    {
      hide Zipped, Holds, Distinct, Refs, PathRefs, Height, Balance, Rotatable, Shrunk, Avl, Flat, Before, After, Plug;
      var balance, idx := balance0, idx0;
      ghost var c, t := c0, t0;
      while true
        invariant Zipped(nodes, c, t) && t.Bin? && t.n.ref == balance && Shrunk(c, t)
        invariant Stacked(path, c) && idx == Depth(c) + 1 && root == TopRef(c, balance)
        invariant Before(c) + Flat(t) + After(c) == Before(c0) + Flat(t0) + After(c0)
        invariant nodes.Keys == old(nodes.Keys) && Refs(t) + PathRefs(c) == Refs(t0) + PathRefs(c0)
        decreases c
      {
        idx := idx - 1;
        var bparent := path[idx];
        StepFacts(nodes, c, t);
        ShrunkStep(c, t);
        var leftNode := bparent != NULL && nodes[bparent].left == balance;
        balance := RebalanceAt(balance, bparent, leftNode, c, t);
        ghost var t1 := Balance(t);
        ZippedRecord(nodes, c, t1);
        if nodes[balance].balance != 0 || bparent == NULL {
          tree := Plug(c, t1);
          PluggedTree(nodes, c, t1);
          return;
        }
        ghost var h := nodes;
        if leftNode {
          nodes := nodes[bparent := nodes[bparent].(balance := nodes[bparent].balance + 1)];
        } else {
          nodes := nodes[bparent := nodes[bparent].(balance := nodes[bparent].balance - 1)];
        }
        StepFacts(h, c, t1);
        MovedUp(h, nodes, c, t1, 1);
        FlatParent(c, t1, 1);
        ParentRefs(c, t1, 1);
        balance := bparent;
        c, t := c.up, Parent(c, t1, 1);
      }
    }

    /** The first (last) node of a subtree, reached over child links. */
    method First(top: nat, ghost t: Tree<Item<K, V>>, ghost lo: nat, ghost hi: nat) returns (tmp: nat)
      requires t.Bin? && t.n.ref == top && Holds(nodes, t, lo, hi)
      ensures tmp == Leftmost(t).n.ref
    {
      tmp := top;
      ghost var s, h := t, hi;
      while nodes[tmp].leftChild
        invariant s.Bin? && s.n.ref == tmp && Holds(nodes, s, lo, h) && Leftmost(s) == Leftmost(t)
        decreases s
      {
        tmp := nodes[tmp].left;
        s, h := s.l, s.n.ref;
      }
    }

    method Last(top: nat, ghost t: Tree<Item<K, V>>, ghost lo: nat, ghost hi: nat) returns (tmp: nat)
      requires t.Bin? && t.n.ref == top && Holds(nodes, t, lo, hi)
      ensures tmp == Rightmost(t).n.ref
    {
      tmp := top;
      ghost var s, l := t, lo;
      while nodes[tmp].rightChild
        invariant s.Bin? && s.n.ref == tmp && Holds(nodes, s, l, hi) && Rightmost(s) == Rightmost(t)
        decreases s
      {
        tmp := nodes[tmp].right;
        s, l := s.r, s.n.ref;
      }
    }

    /** A node with at most one child leaves the tree: the thread that pointed at it and
        the parent's link skip it. */
    method SpliceOut(node: nat, parent: nat, leftNode: bool, ghost c: Path<Item<K, V>>, ghost t: Tree<Item<K, V>>)
      returns (ghost x: Tree<Item<K, V>>)
      requires Zipped(nodes, c, t) && t.Bin? && t.n.ref == node && (t.l.Nil? || t.r.Nil?)
      requires parent == (if c.Top? then NULL else c.n.ref) && (leftNode <==> c.InLeft?) && root == TopRef(c, node)
      modifies this`nodes, this`root
      ensures x == (if t.l.Nil? then t.r else t.l) && nodes.Keys == old(nodes.Keys) && Refs(x) == Refs(t) - {node}
      ensures c.Top? ==> Zipped(nodes, Top, x) && root == Root(x, NULL)
      ensures !c.Top? ==> Zipped(nodes, c.up, Parent(c, x, 1)) && root == TopRef(c.up, parent)
      ensures !c.Top? ==> Refs(Parent(c, x, 1)) + PathRefs(c.up) == Refs(x) + PathRefs(c)
    {
      hide Zipped, Holds, Distinct, Refs, PathRefs, Height, Changed, Agree;
      ghost var h := nodes;
      ZippedParts(h, c, t);
      ZippedRecord(h, c, t);
      RootRecord(h, t, Lo(c), Hi(c));
      StepFacts(h, c, t);
      var child := NULL;
      if !nodes[node].leftChild {
        x := t.r;
        if nodes[node].rightChild {
          child := nodes[node].right;
          var tmp := First(child, t.r, node, Hi(c));
          FirstInStore(h, t.r, node, Hi(c));
          OneWrite(nodes, tmp, nodes[tmp].(left := nodes[node].left));
          nodes := nodes[tmp := nodes[tmp].(left := nodes[node].left)];
        }
      } else {
        x := t.l;
        child := nodes[node].left;
        var tmp := Last(child, t.l, Lo(c), node);
        FirstInStore(h, t.l, Lo(c), node);
        OneWrite(nodes, tmp, nodes[tmp].(right := nodes[node].right));
        nodes := nodes[tmp := nodes[tmp].(right := nodes[node].right)];
      }
      ghost var h1 := nodes;
      ThreadSkips(h, h1, c, t, x);
      NoNull(t.l);
      NoNull(t.r);
      assert child == NULL <==> x.Nil? by { RefsOfRoot(x); }
      if parent == NULL {
        root := child;
        RelinkedTop(h1, t, x);
      } else {
        KeepsRecord(h, h1, c, t);
        BypassNode(node, child, parent, leftNode);
        ParentSkips(h, h1, nodes, c, t, x);
      }
    }

    /** The parent's link and balance when `node` is replaced by its only child, if any. */
    method BypassNode(node: nat, child: nat, parent: nat, leftNode: bool)
      requires parent in nodes && node in nodes && node != parent
      requires leftNode ==> nodes[parent].leftChild
      requires !leftNode ==> nodes[parent].rightChild
      modifies this`nodes
      ensures Changed(old(nodes), nodes, {parent})
      ensures nodes[parent] == var p := old(nodes[parent]);
                if leftNode then p.(left := if child == NULL then old(nodes[node]).left else child, leftChild := child != NULL, balance := p.balance + 1)
                else p.(right := if child == NULL then old(nodes[node]).right else child, rightChild := child != NULL, balance := p.balance - 1)
    {
      if leftNode {
        if child == NULL {
          nodes := nodes[parent := nodes[parent].(leftChild := false, left := nodes[node].left)];
        } else {
          nodes := nodes[parent := nodes[parent].(left := child)];
        }
        nodes := nodes[parent := nodes[parent].(balance := nodes[parent].balance + 1)];
      } else {
        if child == NULL {
          nodes := nodes[parent := nodes[parent].(rightChild := false, right := nodes[node].right)];
        } else {
          nodes := nodes[parent := nodes[parent].(right := child)];
        }
        nodes := nodes[parent := nodes[parent].(balance := nodes[parent].balance - 1)];
      }
    }

    /** The way down to the in-order successor of a node with a right child; the entry
        for the node itself will hold the successor. */
    method FindSuccessor(node: nat, path0: seq<nat>, idx0: nat, ghost c: Path<Item<K, V>>, ghost t: Tree<Item<K, V>>)
      returns (next: nat, nextp: nat, path: seq<nat>, idx: nat, ghost cs: Path<Item<K, V>>)
      requires Zipped(nodes, c, t) && t.Bin? && t.r.Bin? && t.n.ref == node
      requires |path0| == MAX_GTREE_HEIGHT && Stacked(path0, c) && idx0 == Depth(c)
      requires Depth(c) + Height(t) <= MAX_GTREE_HEIGHT
      ensures cs == Spine(InRight(c, t.l, Leftmost(t.r).n, t.b), t.r)
      ensures next == Leftmost(t.r).n.ref && nextp == (if t.r.l.Nil? then node else MinParent(t.r).n.ref)
      ensures Stacked(path, cs) && idx == Depth(cs) && |path| == |path0|
    {
      hide Zipped, Distinct, Refs, PathRefs;
      ZippedParts(nodes, c, t);
      RootRecord(nodes, t, Lo(c), Hi(c));
      path, next, nextp := path0, nodes[node].right, node;
      var oldIdx := idx0 + 1;
      idx := idx0 + 1;
      ghost var x := Leftmost(t.r).n;
      cs := InRight(c, t.l, x, t.b);
      PushPath(path, c, cs);
      ghost var s, hi := t.r, Hi(c);
      if t.r.l.Bin? { DropMinFocus(cs, t.r); }
      ghost var goal := Spine(cs, t.r);
      while nodes[next].leftChild
        invariant s.Bin? && s.n.ref == next && Holds(nodes, s, node, hi) && Leftmost(s) == Leftmost(t.r)
        invariant goal == Spine(cs, s) && idx == Depth(cs) && Depth(cs) + Height(s) <= MAX_GTREE_HEIGHT
        invariant |path| == |path0| && oldIdx <= idx && Stacked(path[oldIdx := x.ref], cs)
        invariant nextp == if idx == oldIdx then node else cs.n.ref
        invariant idx == oldIdx ==> s == t.r
        decreases s
      {
        idx := idx + 1;
        ghost var cs' := InLeft(cs, s.n, s.b, s.r);
        PushPath(path[oldIdx := x.ref], cs, cs');
        assert path[idx := next][oldIdx := x.ref] == path[oldIdx := x.ref][idx := next];
        path := path[idx := next];
        nextp := next;
        next := nodes[next].left;
        cs, hi, s := cs', s.n.ref, s.l;
      }
      path := path[oldIdx := next];
    }

    /** The successor leaves its parent, unless that is the node being removed. */
    method UnlinkSuccessor(node: nat, next: nat, nextp: nat)
      requires node in nodes && next in nodes && nextp in nodes && node != next && nextp != next
      modifies this`nodes
      ensures Changed(old(nodes), nodes, {node, next, nextp})
      ensures var (n, x, p) := old((nodes[node], nodes[next], nodes[nextp]));
              if nextp == node then nodes[node] == n.(balance := n.balance - 1) && nodes[next] == x
              else && nodes[node] == n
                   && nodes[next] == x.(rightChild := true, right := n.right)
                   && nodes[nextp] == p.(left := if x.rightChild then x.right else p.left,
                                         leftChild := p.leftChild && x.rightChild, balance := p.balance + 1)
    {
      if nextp != node {
        if nodes[next].rightChild {
          nodes := nodes[nextp := nodes[nextp].(left := nodes[next].right)];
        } else {
          nodes := nodes[nextp := nodes[nextp].(leftChild := false)];
        }
        nodes := nodes[nextp := nodes[nextp].(balance := nodes[nextp].balance + 1)];
        nodes := nodes[next := nodes[next].(rightChild := true, right := nodes[node].right)];
      } else {
        nodes := nodes[node := nodes[node].(balance := nodes[node].balance - 1)];
      }
    }

    /** The successor takes the place of a node with two children. */
    method PromoteSuccessor(node: nat, next: nat, nextp: nat, parent: nat, leftNode: bool,
                            ghost c: Path<Item<K, V>>, ghost t: Tree<Item<K, V>>)
      requires Zipped(nodes, c, t) && t.Bin? && t.l.Bin? && t.r.Bin? && t.n.ref == node
      requires next == Leftmost(t.r).n.ref && nextp == (if t.r.l.Nil? then node else MinParent(t.r).n.ref)
      requires parent == (if c.Top? then NULL else c.n.ref) && (leftNode <==> c.InLeft?) && root == TopRef(c, node)
      modifies this`nodes, this`root
      ensures Zipped(nodes, c, Promoted(t)) && Refs(Promoted(t)) == Refs(t) - {node}
      ensures root == TopRef(c, next) && nodes.Keys == old(nodes.Keys)
    {
      hide Zipped, Holds, Distinct, Refs, PathRefs, Height, DropMin, Leftmost, Rightmost, MinParent;
      ghost var h := nodes;
      PromotionNodes(h, c, t);
      ZippedParts(h, c, t);
      RootRecord(h, t, Lo(c), Hi(c));
      UnlinkSuccessor(node, next, nextp);
      ChangedFrame(h, nodes, {node, next, nextp}, t.l, Lo(c), node);
      var prev := Last(nodes[node].left, t.l, Lo(c), node);
      nodes := nodes[prev := nodes[prev].(right := next)];
      nodes := nodes[next := nodes[next].(leftChild := true, left := nodes[node].left, balance := nodes[node].balance)];
      PromotionStored(h, nodes, c, t);
      ghost var h1 := nodes;
      if parent == NULL {
        root := next;
      } else if leftNode {
        nodes := nodes[parent := nodes[parent].(left := next)];
      } else {
        nodes := nodes[parent := nodes[parent].(right := next)];
      }
      PromotionLinked(h, h1, nodes, c, t);
    }

    /** The node at the end of the path leaves the tree, which is rebalanced. */
    method Detach(node: nat, path0: seq<nat>, idx0: nat, ghost c: Path<Item<K, V>>, ghost t: Tree<Item<K, V>>)
      requires Zipped(nodes, c, t) && t.Bin? && t.n.ref == node && Avl(Plug(c, t)) && Size(Plug(c, t)) < NODES_LIMIT
      requires |path0| == MAX_GTREE_HEIGHT && Stacked(path0, c) && idx0 == Depth(c) + 1 && root == TopRef(c, node)
      modifies this`nodes, this`root, this`tree
      ensures Zipped(nodes, Top, tree) && Avl(tree) && root == Root(tree, NULL)
      ensures Flat(tree) == Before(c) + Flat(t.l) + Flat(t.r) + After(c)
      ensures nodes.Keys == old(nodes.Keys) && Refs(tree) == (Refs(t) - {node}) + PathRefs(c)
    {
      hide Zipped, Holds, Distinct, Refs, PathRefs, Height, Shrunk, Avl, Flat, Before, After, Plug, Changed, Spine, Promoted;
      ZippedRecord(nodes, c, t);
      StepFacts(nodes, c, t);
      var path, idx := path0, idx0 - 1;
      var parent := path[idx];
      var leftNode := parent != NULL && nodes[parent].left == node;
      if !nodes[node].leftChild || !nodes[node].rightChild {
        ghost var x := SpliceOut(node, parent, leftNode, c, t);
        SplicedShape(c, t, x);
        if parent == NULL {
          tree := x;
          NoPathRefs(c);
        } else {
          RestoreShrunk(parent, path, idx, c.up, Parent(c, x, 1));
        }
      } else {
        PlugHeight(c, t);
        HeightFits(Plug(c, t));
        var next, nextp;
        ghost var cs;
        next, nextp, path, idx, cs := FindSuccessor(node, path, idx, c, t);
        PromoteSuccessor(node, next, nextp, parent, leftNode, c, t);
        ReplacedBySuccessor(c, t);
        PromotedFocus(nodes, c, t);
        SpineTop(c, t);
        RestoreShrunk(path[idx], path, idx, cs.up, Parent(cs, Leftmost(t.r).r, 1));
      }
    }

    /** g_tree_remove_internal. The removed node is freed, and nothing else is. */
    method RemoveInternal(key: K) returns (removed: bool)
      requires Valid() && nnodes < NODES_LIMIT
      modifies this
      ensures Valid() && Contents() == Removed(cmp, old(Contents()), key)
      ensures removed <==> Lookup(cmp, old(Contents()), key).Some?
    {
      hide Zipped, Holds, Distinct, Refs, PathRefs, Height, Avl, Flat, Before, After, Plug, Pairs, Increasing, Order, Between;
      if root == NULL {
        EmptyTree(nodes, tree);
        return false;
      }
      var node, path, idx;
      ghost var c, t;
      node, path, idx, c, t := Search(key);
      Zip(nodes, c, t);
      ZippedRecord(nodes, c, t);
      PluggedRoot(c, t);
      if cmp(key, nodes[node].key) != 0 {
        NotFound(cmp, c, t, key);
        return false;
      }
      FoundList(cmp, c, t, key);
      NodeRefs(nodes, c, t);
      Detach(node, path, idx, c, t);
      FreedNode(nodes, node, tree);
      nodes := nodes - {node};
      nnodes := nnodes - 1;
      removed := true;
    }

    /** g_tree_find_node and g_tree_lookup */
    method TreeLookup(key: K) returns (value: Option<V>)
      requires Valid()
      ensures value == Lookup(cmp, Contents(), key)
    {
      hide Order, Increasing, Avl, Zipped, Pairs, Flat, Before, After, Between, Refs, Height, Plug, Lookup;
      if root == NULL {
        EmptyTree(nodes, tree);
        LookupEmpty<K, V>(cmp, key);
        return None;
      }
      var node := root;
      ghost var c: Path<Item<K, V>>, t := Top, tree;
      EmptyBetween<K, V>(cmp, key);
      PlugTop(tree);
      while true
        invariant Plug(c, t) == tree && t.Bin? && t.n.ref == node && Between(cmp, key, c)
        decreases t
      {
        Zip(nodes, c, t);
        ZippedRecord(nodes, c, t);
        var order := cmp(key, nodes[node].key);
        if order == 0 {
          FoundValue(cmp, c, t, key);
          return Some(nodes[node].value);
        } else if order < 0 {
          if !nodes[node].leftChild { NotFound(cmp, c, t, key); return None; }
          BetweenLeft(cmp, key, c, t);
          PlugDown(c, t);
          node := nodes[node].left;
          c, t := InLeft(c, t.n, t.b, t.r), t.l;
        } else {
          if !nodes[node].rightChild { NotFound(cmp, c, t, key); return None; }
          BetweenRight(cmp, key, c, t);
          PlugDown(c, t);
          node := nodes[node].right;
          c, t := InRight(c, t.l, t.n, t.b), t.r;
        }
      }
    }

    /** g_tree_height */
    method TreeHeight() returns (height: nat)
      requires Valid()
      ensures height == Height(tree)
    {
      hide Order, Increasing, Zipped, Pairs, Flat, Refs, Distinct, HoldsPath;
      ZippedParts(nodes, Top, tree);
      if root == NULL {
        EmptyTree(nodes, tree);
        return 0;
      }
      height := 0;
      var node := root;
      ghost var t, hi := tree, NULL;
      while true
        invariant t.Bin? && t.n.ref == node && Holds(nodes, t, NULL, hi) && Avl(t)
        invariant height + Height(t) == Height(tree)
        decreases t
      {
        HeightByBalance(t);
        height := height + 1 + Max(nodes[node].balance, 0);
        if !nodes[node].leftChild { return; }
        node := nodes[node].left;
        t, hi := t.l, t.n.ref;
      }
    }

    /** g_tree_node_next: needs only the node itself and its right subtree in memory. */
    method NodeNext(node: nat, ghost c: Path<Item<K, V>>, ghost t: Tree<Item<K, V>>)
      returns (next: nat, ghost c': Path<Item<K, V>>, ghost t': Tree<Item<K, V>>)
      requires t.Bin? && t.n.ref == node && DistinctPath(c) && Distinct(t)
      requires node in nodes && nodes[node] == Record(t.n, t.b, t.l, t.r, Lo(c), Hi(c)) && Holds(nodes, t.r, node, Hi(c))
      ensures next == NULL ==> t.r.Nil? && After(c) == []
      ensures next != NULL ==>
                && Plug(c', t') == Plug(c, t) && t'.Bin? && t'.n.ref == next
                && Before(c') + Flat(t'.l) == Before(c) + Flat(t.l) + [t.n]
    {
      hide Distinct, DistinctPath, Plug, Before, After, Flat, Height;
      if nodes[node].rightChild {
        c', t' := StepDown(c, t);
        next := First(nodes[node].right, t.r, node, Hi(c));
        FirstNotNull(t);
      } else {
        next := nodes[node].right;
        c', t' := StepUp(c, t);
        FlatNoRight(c, t);
      }
    }

    /** g_tree_foreach: visits the pairs in key order until the callback says stop. */
    method Foreach(func: (K, V) -> bool) returns (visited: seq<(K, V)>)
      requires Valid()
      ensures visited == Visited(Contents(), func)
    {
      hide Order, Increasing, Avl, Zipped, Holds, Distinct, DistinctPath, Pairs, Flat, Before, After, Refs, Height, Plug, Visited;
      visited := [];
      if root == NULL {
        EmptyTree(nodes, tree);
        VisitedPrefix([], 0, func);
        return;
      }
      ZippedParts(nodes, Top, tree);
      var node := First(root, tree, NULL, NULL);
      ghost var c, t := FirstFocus(nodes, tree);
      ghost var done: seq<Item<K, V>> := [];
      PairsOfNone<K, V>();
      while node != NULL
        invariant node != NULL ==> Plug(c, t) == tree && t.Bin? && t.n.ref == node && done == Before(c) + Flat(t.l)
        invariant node == NULL ==> done == Flat(tree)
        invariant visited == Pairs(done) && forall i :: 0 <= i < |visited| ==> !func(visited[i].0, visited[i].1)
        invariant |done| <= |Flat(tree)|
        decreases |Flat(tree)| - |done|, node
      {
        Zip(nodes, c, t);
        Around(c, t);
        FocusFacts(nodes, nodes, c, t, {});
        PairsOfParts(done, t.n, Flat(t.r) + After(c));
        visited := visited + [(nodes[node].key, nodes[node].value)];
        if func(nodes[node].key, nodes[node].value) {
          VisitedPrefix(Contents(), |done|, func);
          return;
        }
        done := done + [t.n];
        LastFocus(c, t);
        node, c, t := NodeNext(node, c, t);
      }
      VisitedPrefix(Contents(), |done|, func);
    }

    /** g_tree_remove_all: every node is freed once, and none is read after that, since a
        freed node is no longer in memory. */
    method RemoveAll()
      requires Valid()
      modifies this
      ensures Valid() && Contents() == [] && nodes == map[]
    {
      hide Order, Increasing, Avl, Zipped, Holds, Distinct, DistinctPath, Flat, Before, After, Refs, PathRefs, Height, Plug, Pairs;
      ghost var h := nodes;
      ZippedParts(nodes, Top, tree);
      var node := NULL;
      ghost var c: Path<Item<K, V>>, t: Tree<Item<K, V>> := Top, Nil;
      ghost var done: seq<Item<K, V>> := [];
      if root != NULL {
        node := First(root, tree, NULL, NULL);
        c, t := FirstFocus(nodes, tree);
      } else {
        EmptyTree(nodes, tree);
        FlatOfNil(tree);
      }
      while node != NULL
        invariant node != NULL ==> Plug(c, t) == tree && t.Bin? && t.n.ref == node && done == Before(c) + Flat(t.l)
        invariant node == NULL ==> done == Flat(tree)
        invariant nodes == h - RefsOf(done) && |done| <= |Flat(tree)| && tree == old(tree)
        decreases |Flat(tree)| - |done|, node
      {
        Zip(h, c, t);
        Around(c, t);
        FocusFacts(h, nodes, c, t, RefsOf(done));
        done := done + [t.n];
        LastFocus(c, t);
        var next;
        next, c, t := NodeNext(node, c, t);
        nodes := nodes - {node};
        node := next;
      }
      AllFreed(h, nodes, tree);
      root, nnodes, tree := NULL, 0, Nil;
      EmptyValid<K, V>(cmp);
    }
  }

  /** The pairs g_tree_foreach hands to its callback. */
  function Visited<K, V>(s: seq<(K, V)>, func: (K, V) -> bool): seq<(K, V)> {
    if s == [] then []
    else if func(s[0].0, s[0].1) then [s[0]]
    else [s[0]] + Visited(s[1..], func)
  }

  lemma {:induction false} VisitedPrefix<K, V>(s: seq<(K, V)>, n: nat, func: (K, V) -> bool)
    requires n <= |s| && forall i :: 0 <= i < n ==> !func(s[i].0, s[i].1)
    ensures n == |s| ==> Visited(s, func) == s
    ensures n < |s| && func(s[n].0, s[n].1) ==> Visited(s, func) == s[..n] + [s[n]]
  {
    if s != [] && n > 0 {
      VisitedPrefix(s[1..], n - 1, func);
      assert s[..n] == [s[0]] + s[1..][..n - 1] && s == [s[0]] + s[1..];
    }
  }

  lemma LookupEmpty<K, V>(cmp: (K, K) -> int, key: K)
    ensures Lookup<K, V>(cmp, [], key) == None
  {}

  lemma PlugTop<N>(t: Tree<N>)
    ensures Plug(Top, t) == t
  {}

  lemma PlugDown<N>(c: Path<N>, t: Tree<N>)
    requires t.Bin?
    ensures Plug(InLeft(c, t.n, t.b, t.r), t.l) == Plug(c, t)
    ensures Plug(InRight(c, t.l, t.n, t.b), t.r) == Plug(c, t)
  {}

  lemma {:induction false} FoundValue<K(!new), V>(cmp: (K, K) -> int, c: Path<Item<K, V>>, t: Tree<Item<K, V>>, key: K)
    requires Order(cmp) && t.Bin? && Increasing(cmp, Pairs(Flat(Plug(c, t)))) && cmp(key, t.n.key) == 0
    ensures Lookup(cmp, Pairs(Flat(Plug(c, t))), key) == Some(t.n.value)
  {
    Around(c, t);
    hide Flat, Plug, Before, After, Pairs, Lookup, Increasing, Order;
    var a, x, b := Pairs(Before(c) + Flat(t.l)), (t.n.key, t.n.value), Pairs(Flat(t.r) + After(c));
    SmallerBelow(cmp, a, x, b, key);
    RemovedAt(cmp, a, x, b, key);
  }

  lemma {:induction false} FirstNotNull<K, V>(t: Tree<Item<K, V>>)
    requires t.Bin? && Distinct(t)
    ensures t.r.Bin? ==> Leftmost(t.r).n.ref != NULL
    ensures Leftmost(t).n.ref != NULL
  {
    NoNull(t);
    MinInTree(t);
    if t.r.Bin? { MinInTree(t.r); }
  }

  lemma {:induction false} FlatNoRight<K, V>(c: Path<Item<K, V>>, t: Tree<Item<K, V>>)
    requires t.Bin? && t.r.Nil?
    ensures Before(c) + Flat(t) == Before(c) + Flat(t.l) + [t.n]
  {}

  /** The focus on the first node of the whole tree. */
  lemma {:induction false} FirstFocus<K, V>(h: Store<K, V>, t: Tree<Item<K, V>>) returns (c: Path<Item<K, V>>, f: Tree<Item<K, V>>)
    requires t.Bin? && Zipped(h, Top, t)
    ensures Plug(c, f) == t && f.Bin? && f.n.ref == Leftmost(t).n.ref && f.n.ref != NULL
    ensures Before(c) + Flat(f.l) == []
  {
    c, f := Spine(Top, t), Leftmost(t);
    SpinePlug(Top, t);
    FirstNotNull(t);
  }

  lemma PairsOfNone<K, V>()
    ensures Pairs<K, V>([]) == []
  {}

  /** What memory still holds when the nodes before the focus are gone. */
  lemma {:induction false} FocusFacts<K, V>(h: Store<K, V>, h': Store<K, V>, c: Path<Item<K, V>>, t: Tree<Item<K, V>>, gone: set<nat>)
    requires Zipped(h, c, t) && t.Bin? && h' == h - gone
    requires gone == {} || gone == RefsOf(Before(c) + Flat(t.l))
    ensures DistinctPath(c) && Distinct(t) && t.n.ref in h'
    ensures h'[t.n.ref] == Record(t.n, t.b, t.l, t.r, Lo(c), Hi(c)) && Holds(h', t.r, t.n.ref, Hi(c))
  {
    ListedElsewhere(c, t);
    HoldsFrame(h, h', t.r, t.n.ref, Hi(c));
  }

  /** Past the last node everything has been listed. */
  lemma {:induction false} LastFocus<K, V>(c: Path<Item<K, V>>, t: Tree<Item<K, V>>)
    requires t.Bin?
    ensures t.r.Nil? && After(c) == [] ==> Flat(Plug(c, t)) == Before(c) + Flat(t.l) + [t.n]
    ensures |Before(c) + Flat(t.l)| < |Flat(Plug(c, t))|
  {
    Around(c, t);
  }

  lemma FlatOfNil<N>(t: Tree<N>)
    requires t.Nil?
    ensures Flat(t) == []
  {}

  lemma {:induction false} AllFreed<K, V>(h: Store<K, V>, h': Store<K, V>, t: Tree<Item<K, V>>)
    requires h.Keys == Refs(t) && h' == h - RefsOf(Flat(t))
    ensures h' == map[]
  {
    ListedInTree(t);
  }

  lemma EmptyValid<K(!new), V>(cmp: (K, K) -> int)
    ensures Zipped<K, V>(map[], Top, Nil) && Refs<K, V>(Nil) == {} && Avl<Item<K, V>>(Nil) && Size<Item<K, V>>(Nil) == 0
    ensures Pairs<K, V>(Flat(Nil)) == [] && Increasing<K, V>(cmp, [])
  {}

  lemma NoPathRefs<K, V>(c: Path<Item<K, V>>)
    requires c.Top?
    ensures PathRefs(c) == {}
  {}

  lemma {:induction false} NodeRefs<K, V>(h: Store<K, V>, c: Path<Item<K, V>>, t: Tree<Item<K, V>>)
    requires Zipped(h, c, t) && t.Bin?
    ensures (Refs(t) - {t.n.ref}) + PathRefs(c) == (Refs(t) + PathRefs(c)) - {t.n.ref}
  {}

  lemma {:induction false} NotFound<K(!new), V>(cmp: (K, K) -> int, c: Path<Item<K, V>>, t: Tree<Item<K, V>>, key: K)
    requires Order(cmp) && t.Bin? && Increasing(cmp, Pairs(Flat(Plug(c, t)))) && Between(cmp, key, c)
    requires cmp(key, t.n.key) != 0
    requires cmp(key, t.n.key) < 0 ==> t.l.Nil?
    requires cmp(key, t.n.key) > 0 ==> t.r.Nil?
    ensures Lookup(cmp, Pairs(Flat(Plug(c, t))), key) == None
    ensures Removed(cmp, Pairs(Flat(Plug(c, t))), key) == Pairs(Flat(Plug(c, t)))
  {
    if cmp(key, t.n.key) < 0 {
      BetweenLeft(cmp, key, c, t);
      NoneInHole(cmp, InLeft(c, t.n, t.b, t.r), key);
    } else {
      BetweenRight(cmp, key, c, t);
      NoneInHole(cmp, InRight(c, t.l, t.n, t.b), key);
    }
  }

  lemma {:induction false} NoneInHole<K(!new), V>(cmp: (K, K) -> int, c: Path<Item<K, V>>, key: K)
    requires Between(cmp, key, c)
    ensures Lookup(cmp, Pairs(Flat(Plug(c, Nil))), key) == None
    ensures Removed(cmp, Pairs(Flat(Plug(c, Nil))), key) == Pairs(Flat(Plug(c, Nil)))
  {
    FlatPlug(c, Nil);
    BetweenParts(cmp, key, c);
    hide Flat, Plug, Before, After, Pairs, AllSmaller, AllLarger, Lookup, Removed;
    assert Before(c) + [] + After(c) == Before(c) + After(c);
    PairsSum(Before(c), After(c));
    NothingAt(cmp, Pairs(Before(c)), Pairs(After(c)), key);
  }

  lemma PairsSum<K, V>(a: seq<Item<K, V>>, b: seq<Item<K, V>>)
    ensures Pairs(a + b) == Pairs(a) + Pairs(b)
  {}

  /** What is left of the list when the node at the end of the path goes. */
  lemma {:induction false} FoundList<K(!new), V>(cmp: (K, K) -> int, c: Path<Item<K, V>>, t: Tree<Item<K, V>>, key: K)
    requires Order(cmp) && t.Bin? && Increasing(cmp, Pairs(Flat(Plug(c, t)))) && cmp(key, t.n.key) == 0
    ensures var s := Before(c) + Flat(t.l) + Flat(t.r) + After(c);
            && Pairs(s) == Removed(cmp, Pairs(Flat(Plug(c, t))), key) && Increasing(cmp, Pairs(s))
            && |s| == Size(Plug(c, t)) - 1
    ensures Lookup(cmp, Pairs(Flat(Plug(c, t))), key).Some?
  {
    Around(c, t);
    hide Flat, Plug, Before, After, Pairs, Lookup, Removed, Increasing, Order, Size;
    var a, b := Before(c) + Flat(t.l), Flat(t.r) + After(c);
    assert Before(c) + Flat(t.l) + Flat(t.r) + After(c) == a + b;
    PairsSum(a, b);
    var x := (t.n.key, t.n.value);
    SmallerBelow(cmp, Pairs(a), x, Pairs(b), key);
    RemovedAt(cmp, Pairs(a), x, Pairs(b), key);
    OrderStrict(cmp, t.n.key, t.n.key, t.n.key);
    IncreasingAt(cmp, Pairs(a), x, Pairs(b), x);
  }

  lemma SingleChild<N>(t: Tree<N>)
    requires Avl(t) && t.Bin? && (t.l.Nil? || t.r.Nil?)
    ensures var x := if t.l.Nil? then t.r else t.l; Avl(x) && Height(t) == Height(x) + 1
  {}

  lemma {:induction false} SplicedList<N>(c: Path<N>, t: Tree<N>, x: Tree<N>)
    requires t.Bin? && (t.l.Nil? || t.r.Nil?) && x == (if t.l.Nil? then t.r else t.l)
    ensures Before(c) + Flat(x) + After(c) == Before(c) + Flat(t.l) + Flat(t.r) + After(c)
    ensures c.Top? ==> Flat(x) == Before(c) + Flat(x) + After(c)
  {
    hide Flat, Before, After;
    SplicedFlat(t, x);
    TopSides(c);
  }

  lemma {:induction false} SplicedFlat<N>(t: Tree<N>, x: Tree<N>)
    requires t.Bin? && (t.l.Nil? || t.r.Nil?) && x == (if t.l.Nil? then t.r else t.l)
    ensures Flat(x) == Flat(t.l) + Flat(t.r)
  {}

  lemma {:induction false} TopSides<N>(c: Path<N>)
    ensures c.Top? ==> Before(c) == [] && After(c) == []
  {}

  /** Splicing out: shape and list. */
  lemma {:induction false} SplicedShape<N>(c: Path<N>, t: Tree<N>, x: Tree<N>)
    requires t.Bin? && (t.l.Nil? || t.r.Nil?) && x == (if t.l.Nil? then t.r else t.l) && Avl(Plug(c, t))
    ensures c.Top? ==> Avl(x) && Flat(x) == Before(c) + Flat(t.l) + Flat(t.r) + After(c)
    ensures !c.Top? ==> Shrunk(c.up, Parent(c, x, 1))
    ensures !c.Top? ==> Before(c.up) + Flat(Parent(c, x, 1)) + After(c.up) == Before(c) + Flat(t.l) + Flat(t.r) + After(c)
  {
    hide Avl, Height, Plug, Flat, PathAvl, Before, After, Shrunk, Parent;
    SplicedList(c, t, x);
    PlugAvl(c, t);
    SingleChild(t);
    if c.Top? {
      PlugTop(t);
    } else {
      ShrinkInto(c, x);
      FlatParent(c, x, 1);
    }
  }

  lemma {:induction false} KeepsRecord<K, V>(h: Store<K, V>, h1: Store<K, V>, c: Path<Item<K, V>>, t: Tree<Item<K, V>>)
    requires Zipped(h, c, t) && t.Bin? && !c.Top? && Agree(h, h1, PathRefs(c)) && h1.Keys == h.Keys
    ensures t.n.ref in h1 && c.n.ref in h1 && t.n.ref != c.n.ref && h1[c.n.ref] == h[c.n.ref]
    ensures h[c.n.ref].balance == c.b
    ensures c.InLeft? ==> h[c.n.ref].leftChild
    ensures c.InRight? ==> h[c.n.ref].rightChild
  {}

  lemma RefsOfRoot<K, V>(t: Tree<Item<K, V>>)
    ensures t.Bin? ==> t.n.ref in Refs(t)
  {}

  lemma {:induction false} FirstInStore<K, V>(h: Store<K, V>, t: Tree<Item<K, V>>, lo: nat, hi: nat)
    requires t.Bin? && Holds(h, t, lo, hi)
    ensures Leftmost(t).n.ref in h && Rightmost(t).n.ref in h
  {
    if t.l.Bin? { FirstInStore(h, t.l, lo, t.n.ref); }
    if t.r.Bin? { FirstInStore(h, t.r, t.n.ref, hi); }
  }

  lemma SingleNode<K(!new), V>(key: K, value: V, addr: nat, cmp: (K, K) -> int)
    requires addr != NULL
    ensures var t := Bin(Nil, Item(addr, key, value), 0, Nil);
            && Zipped(map[addr := Node(key, value, NULL, NULL, 0, false, false)], Top, t)
            && Refs(t) == {addr} && Avl(t) && Size(t) == 1
            && Pairs(Flat(t)) == [(key, value)] && Increasing(cmp, [(key, value)])
  {}

  lemma {:induction false} EmptyTree<K, V>(h: Store<K, V>, t: Tree<Item<K, V>>)
    requires Zipped(h, Top, t) && Root(t, NULL) == NULL && h.Keys == Refs(t)
    ensures t.Nil? && h == map[] && Pairs(Flat(t)) == [] && Size(t) == 0
  {}

  /** An equal key was found: its node gets the new value, and the new key on replace. */
  lemma {:induction false} Overwritten<K(!new), V>(cmp: (K, K) -> int, h: Store<K, V>, h': Store<K, V>, c: Path<Item<K, V>>,
                                                   t: Tree<Item<K, V>>, y: Item<K, V>, key: K, value: V, replace: bool)
    requires Order(cmp) && t.Bin? && Zipped(h, c, t) && Avl(Plug(c, t)) && Increasing(cmp, Pairs(Flat(Plug(c, t))))
    requires cmp(key, t.n.key) == 0 && y == Item(t.n.ref, if replace then key else t.n.key, value)
    requires Changed(h, h', {y.ref}) && At(h', y.ref, Record(y, t.b, t.l, t.r, Lo(c), Hi(c)))
    ensures var s := Plug(c, t.(n := y));
            && Zipped(h', Top, s) && Refs(s) == Refs(Plug(c, t)) && Root(s, NULL) == Root(Plug(c, t), NULL)
            && Avl(s) && Size(s) == Size(Plug(c, t)) && Increasing(cmp, Pairs(Flat(s)))
            && Pairs(Flat(s)) == Inserted(cmp, Pairs(Flat(Plug(c, t))), key, value, replace)
  {
    hide Zipped, Holds, Refs, Distinct, Pairs, Flat, Increasing, Order, Inserted, Changed, PathAvl, Plug, Size;
    var t' := t.(n := y);
    OverwrittenStore(h, h', c, t, y);
    OverwrittenList(cmp, c, t, y, key, value, replace);
    Zip(h, c, t);
    Zip(h', c, t');
    PluggedRoot(c, t);
    PluggedRoot(c, t');
    PlugAvl(c, t);
    PlugAvl(c, t');
  }

  lemma {:induction false} OverwrittenStore<K, V>(h: Store<K, V>, h': Store<K, V>, c: Path<Item<K, V>>, t: Tree<Item<K, V>>, y: Item<K, V>)
    requires t.Bin? && Zipped(h, c, t) && y.ref == t.n.ref
    requires Changed(h, h', {y.ref}) && At(h', y.ref, Record(y, t.b, t.l, t.r, Lo(c), Hi(c)))
    ensures Zipped(h', c, t.(n := y)) && Refs(t.(n := y)) == Refs(t)
  {
    HoldsFrame(h, h', t.l, Lo(c), t.n.ref);
    HoldsFrame(h, h', t.r, t.n.ref, Hi(c));
    KeepRoot(h, h', c, t, t.(n := y));
  }

  lemma {:induction false} OverwrittenList<K(!new), V>(cmp: (K, K) -> int, c: Path<Item<K, V>>, t: Tree<Item<K, V>>, y: Item<K, V>,
                                                       key: K, value: V, replace: bool)
    requires Order(cmp) && t.Bin? && Increasing(cmp, Pairs(Flat(Plug(c, t))))
    requires cmp(key, t.n.key) == 0 && y == Item(t.n.ref, if replace then key else t.n.key, value)
    ensures Pairs(Flat(Plug(c, t.(n := y)))) == Inserted(cmp, Pairs(Flat(Plug(c, t))), key, value, replace)
    ensures Increasing(cmp, Pairs(Flat(Plug(c, t.(n := y))))) && Size(Plug(c, t.(n := y))) == Size(Plug(c, t))
  {
    Around(c, t);
    Around(c, t.(n := y));
    hide Pairs, Flat, Increasing, Order, Inserted, Plug, Before, After, Size;
    var a, x, b := Pairs(Before(c) + Flat(t.l)), (t.n.key, t.n.value), Pairs(Flat(t.r) + After(c));
    OrderStrict(cmp, t.n.key, key, t.n.key);
    SmallerBelow(cmp, a, x, b, key);
    InsertedAt(cmp, a, x, b, key, value, replace);
    IncreasingAt(cmp, a, x, b, (y.key, y.value));
  }

  /** A leaf was hung under a node: the loop's invariant holds there. */
  lemma {:induction false} GrownLeft<N>(c: Path<N>, t: Tree<N>, x: N)
    requires t.Bin? && t.l.Nil? && Avl(Plug(c, t))
    ensures Grown(c, Bin(Bin(Nil, x, 0, Nil), t.n, t.b - 1, t.r))
  {
    PlugAvl(c, t);
    GrowInto(InLeft(c, t.n, t.b, t.r), Bin(Nil, x, 0, Nil));
  }

  lemma {:induction false} GrownRight<N>(c: Path<N>, t: Tree<N>, x: N)
    requires t.Bin? && t.r.Nil? && Avl(Plug(c, t))
    ensures Grown(c, Bin(t.l, t.n, t.b + 1, Bin(Nil, x, 0, Nil)))
  {
    PlugAvl(c, t);
    GrowInto(InRight(c, t.l, t.n, t.b), Bin(Nil, x, 0, Nil));
  }

  /** The new leaf goes where the sorted list wants the key. */
  lemma {:induction false} InsertedOrder<K(!new), V>(cmp: (K, K) -> int, c: Path<Item<K, V>>, t: Tree<Item<K, V>>, t1: Tree<Item<K, V>>,
                                                     x: Item<K, V>, replace: bool, s: seq<Item<K, V>>)
    requires Order(cmp) && t.Bin? && Increasing(cmp, Pairs(Flat(Plug(c, t)))) && Between(cmp, x.key, c)
    requires || (cmp(x.key, t.n.key) < 0 && t.l.Nil? && t1 == Bin(Bin(Nil, x, 0, Nil), t.n, t.b - 1, t.r))
             || (cmp(x.key, t.n.key) > 0 && t.r.Nil? && t1 == Bin(t.l, t.n, t.b + 1, Bin(Nil, x, 0, Nil)))
    requires s == Before(c) + Flat(t1) + After(c)
    ensures Pairs(s) == Inserted(cmp, Pairs(Flat(Plug(c, t))), x.key, x.value, replace)
    ensures Increasing(cmp, Pairs(s)) && |s| == Size(Plug(c, t)) + 1
  {
    if cmp(x.key, t.n.key) < 0 {
      BetweenLeft(cmp, x.key, c, t);
      InsertedHole(cmp, InLeft(c, t.n, t.b, t.r), x, replace);
    } else {
      BetweenRight(cmp, x.key, c, t);
      InsertedHole(cmp, InRight(c, t.l, t.n, t.b), x, replace);
    }
  }

  lemma {:induction false} InsertedHole<K(!new), V>(cmp: (K, K) -> int, c: Path<Item<K, V>>, x: Item<K, V>, replace: bool)
    requires Order(cmp) && !c.Top? && Increasing(cmp, Pairs(Flat(Plug(c, Nil)))) && Between(cmp, x.key, c)
    ensures var s := Before(c.up) + Flat(Parent(c, Bin(Nil, x, 0, Nil), -1)) + After(c.up);
            && Pairs(s) == Inserted(cmp, Pairs(Flat(Plug(c, Nil))), x.key, x.value, replace)
            && Increasing(cmp, Pairs(s)) && |s| == |Flat(Plug(c, Nil))| + 1
  {
    FlatPlug(c, Nil);
    FlatParent(c, Bin(Nil, x, 0, Nil), -1);
    assert Flat(Bin(Nil, x, 0, Nil)) == [x];
    BetweenParts(cmp, x.key, c);
    hide Flat, Order, Increasing, Inserted, Between, Plug, Before, After, Parent, Pairs, AllSmaller, AllLarger;
    assert Before(c) + [] + After(c) == Before(c) + After(c);
    PairsOfParts(Before(c), x, After(c));
    InsertedBetween(cmp, Pairs(Before(c)), Pairs(After(c)), x.key, x.value, replace);
    IncreasingBetween(cmp, Pairs(Before(c)), Pairs(After(c)), x.key, x.value);
  }

  lemma BetweenParts<K, V>(cmp: (K, K) -> int, key: K, c: Path<Item<K, V>>)
    requires Between(cmp, key, c)
    ensures AllSmaller(cmp, key, Pairs(Before(c))) && AllLarger(cmp, key, Pairs(After(c)))
  {}

  /** The address the root field holds, for a subtree with the given root in the hole. */
  function TopRef<K, V>(c: Path<Item<K, V>>, ref: nat): nat {
    if c.Top? then ref else TopRef(c.up, c.n.ref)
  }

  lemma ZippedParts<K, V>(h: Store<K, V>, c: Path<Item<K, V>>, t: Tree<Item<K, V>>)
    requires Zipped(h, c, t)
    ensures Holds(h, t, Lo(c), Hi(c)) && Distinct(t)
  {}

  lemma RelinkedTop<K, V>(h: Store<K, V>, t: Tree<Item<K, V>>, t': Tree<Item<K, V>>)
    requires Holds(h, t', NULL, NULL) && Distinct(t')
    ensures Zipped(h, Top, t')
  {}

  lemma {:induction false} StepFacts<K, V>(h: Store<K, V>, c: Path<Item<K, V>>, t: Tree<Item<K, V>>)
    requires Zipped(h, c, t) && t.Bin?
    ensures !c.Top? ==> c.n.ref in h && c.n.ref != NULL && h[c.n.ref].balance == c.b
    ensures !c.Top? ==> (h[c.n.ref].left == t.n.ref <==> c.InLeft?)
    ensures -1 <= t.b <= 1 && Rotatable(t) ==> Balance(t) == t
  {
    if !c.Top? { LeftLinkTells(h, c, t); }
  }

  lemma PluggedTree<K, V>(h: Store<K, V>, c: Path<Item<K, V>>, t: Tree<Item<K, V>>)
    requires Zipped(h, c, t) && t.Bin?
    ensures Zipped(h, Top, Plug(c, t)) && Refs(Plug(c, t)) == Refs(t) + PathRefs(c)
    ensures Flat(Plug(c, t)) == Before(c) + Flat(t) + After(c)
    ensures Root(Plug(c, t), NULL) == TopRef(c, t.n.ref)
  {
    Zip(h, c, t);
    FlatPlug(c, t);
    PluggedRoot(c, t);
  }

  lemma {:induction false} PluggedRoot<K, V>(c: Path<Item<K, V>>, t: Tree<Item<K, V>>)
    requires t.Bin?
    ensures Root(Plug(c, t), NULL) == TopRef(c, t.n.ref)
    decreases c
  {
    match c
    case Top =>
    case InLeft(up, n, b, r) => PluggedRoot(up, Bin(t, n, b, r));
    case InRight(up, l, n, b) => PluggedRoot(up, Bin(l, n, b, t));
  }

  lemma ParentRefs<K, V>(c: Path<Item<K, V>>, t: Tree<Item<K, V>>, d: int)
    requires !c.Top?
    ensures Refs(Parent(c, t, d)) + PathRefs(c.up) == Refs(t) + PathRefs(c)
    ensures Parent(c, t, d).n == c.n
  {}

  lemma EmptyBetween<K, V>(cmp: (K, K) -> int, key: K)
    ensures Between<K, V>(cmp, key, Top)
  {}

  lemma ZippedRecord<K, V>(h: Store<K, V>, c: Path<Item<K, V>>, t: Tree<Item<K, V>>)
    requires Zipped(h, c, t) && t.Bin?
    ensures t.n.ref in h && h[t.n.ref] == Record(t.n, t.b, t.l, t.r, Lo(c), Hi(c)) && t.n.ref != NULL
    ensures !c.Top? ==> c.n.ref in h && c.n.ref != NULL
  {}

  lemma PushPath<K, V>(path: seq<nat>, up: Path<Item<K, V>>, c: Path<Item<K, V>>)
    requires Stacked(path, up) && !c.Top? && c.up == up && Depth(c) < |path|
    ensures Stacked(path[Depth(c) := c.n.ref], c)
  {
    StackedFrame(path, path[Depth(c) := c.n.ref], up);
  }

  lemma ChangedNot<K, V>(h: Store<K, V>, s: set<nat>)
    ensures Changed(h, h, s)
  {}

  /** The root's own record is not among those a rotation below it wrote. */
  lemma {:induction false} Unchanged<K, V>(h: Store<K, V>, h1: Store<K, V>, t: Tree<Item<K, V>>, s: set<nat>)
    requires t.Bin? && Distinct(t) && t.n.ref in h && Changed(h, h1, s) && (s == Refs(t.l) || s == Refs(t.r))
    ensures t.n.ref in h1 && h1[t.n.ref] == h[t.n.ref]
  {}

  lemma OneWrite<K, V>(h: Store<K, V>, a: nat, x: Node<K, V>)
    requires a in h
    ensures Changed(h, h[a := x], {a})
  {}

  lemma {:induction false} SpineTop<K, V>(c: Path<Item<K, V>>, t: Tree<Item<K, V>>)
    requires t.Bin? && t.r.Bin?
    ensures var x := Leftmost(t.r).n;
            var cs := Spine(InRight(c, t.l, x, t.b), t.r);
            && !cs.Top? && TopRef(cs.up, cs.n.ref) == TopRef(c, x.ref)
  {
    SpineTopRef(InRight(c, t.l, Leftmost(t.r).n, t.b), t.r);
  }

  lemma {:induction false} SpineTopRef<K, V>(c: Path<Item<K, V>>, r: Tree<Item<K, V>>)
    requires r.Bin? && !c.Top?
    ensures var cs := Spine(c, r); !cs.Top? && TopRef(cs.up, cs.n.ref) == TopRef(c.up, c.n.ref)
    decreases r
  {
    if r.l.Bin? { SpineTopRef(InLeft(c, r.n, r.b, r.r), r.l); }
  }

  /** Freeing a node that is no longer in the tree. */
  lemma {:induction false} FreedNode<K, V>(h: Store<K, V>, node: nat, t: Tree<Item<K, V>>)
    requires Zipped(h, Top, t) && node !in Refs(t)
    ensures Zipped(h - {node}, Top, t)
  {
    HoldsFrame(h, h - {node}, t, NULL, NULL);
  }
}
