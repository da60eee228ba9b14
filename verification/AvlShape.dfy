/** Binary trees with stored balances, the rotations of glib_compat/gtree.c and the
    two rebalancing walks towards the root, on values. `N` is whatever a node holds. */
module AvlShape {

  datatype Tree<N> = Nil | Bin(l: Tree<N>, n: N, b: int, r: Tree<N>)

  /** The way from a subtree up to the root: what the path array remembers. */
  datatype Path<N> = Top
                   | InLeft(up: Path<N>, n: N, b: int, r: Tree<N>)
                   | InRight(up: Path<N>, l: Tree<N>, n: N, b: int)

  function Max(a: int, b: int): int { if a > b then a else b }

  function Height<N>(t: Tree<N>): (h: nat)
    ensures h == 0 <==> t.Nil?
  {
    if t.Nil? then 0 else 1 + Max(Height(t.l), Height(t.r))
  }

  function Size<N>(t: Tree<N>): nat {
    if t.Nil? then 0 else Size(t.l) + 1 + Size(t.r)
  }

  /** The nodes in key order. */
  function Flat<N>(t: Tree<N>): (s: seq<N>)
    ensures |s| == Size(t)
  {
    if t.Nil? then [] else Flat(t.l) + [t.n] + Flat(t.r)
  }

  function Plug<N>(c: Path<N>, t: Tree<N>): Tree<N> {
    match c
    case Top => t
    case InLeft(up, n, b, r) => Plug(up, Bin(t, n, b, r))
    case InRight(up, l, n, b) => Plug(up, Bin(l, n, b, t))
  }

  function Depth<N>(c: Path<N>): nat {
    if c.Top? then 0 else 1 + Depth(c.up)
  }

  /** Nodes before and after the hole. */
  function Before<N>(c: Path<N>): seq<N> {
    match c
    case Top => []
    case InLeft(up, _, _, _) => Before(up)
    case InRight(up, l, n, _) => Before(up) + Flat(l) + [n]
  }

  function After<N>(c: Path<N>): seq<N> {
    match c
    case Top => []
    case InLeft(up, n, _, r) => [n] + Flat(r) + After(up)
    case InRight(up, _, _, _) => After(up)
  }

  lemma {:induction false} FlatPlug<N>(c: Path<N>, t: Tree<N>)
    ensures Flat(Plug(c, t)) == Before(c) + Flat(t) + After(c)
    decreases c
  {
    match c
    case Top =>
    case InLeft(up, n, b, r) =>
      FlatPlug(up, Bin(t, n, b, r));
      Reassociate(Before(up), Flat(t), [n], Flat(r), After(up));
    case InRight(up, l, n, b) =>
      FlatPlug(up, Bin(l, n, b, t));
      Reassociate(Before(up), Flat(l), [n], Flat(t), After(up));
  }

  lemma Reassociate<N>(a: seq<N>, b: seq<N>, c: seq<N>, d: seq<N>, e: seq<N>)
    ensures a + (b + c + d) + e == a + b + (c + d + e)
    ensures a + (b + c + d) + e == (a + b + c) + d + e
  {}

  /** Every stored balance is the true height difference. */
  ghost predicate Exact<N>(t: Tree<N>) {
    t.Bin? ==> t.b == Height(t.r) - Height(t.l) && Exact(t.l) && Exact(t.r)
  }

  ghost predicate Avl<N>(t: Tree<N>) {
    t.Bin? ==> t.b == Height(t.r) - Height(t.l) && -1 <= t.b <= 1 && Avl(t.l) && Avl(t.r)
  }

  lemma {:induction false} AvlIsExact<N>(t: Tree<N>)
    requires Avl(t)
    ensures Exact(t)
  {
    if t.Bin? { AvlIsExact(t.l); AvlIsExact(t.r); }
  }

  /** g_tree_node_rotate_left, with its closed formulas for the two balances. */
  function RotateLeft<N>(t: Tree<N>): (t': Tree<N>)
    requires t.Bin? && t.r.Bin?
    ensures t'.Bin? && t'.l.Bin?
  {
    var a, b := t.b, t.r.b;
    var rb := if b <= 0 then (if a >= 1 then b - 1 else a + b - 2) else (if a <= b then a - 2 else b - 1);
    var nb := if b <= 0 then a - 1 else a - b - 1;
    Bin(Bin(t.l, t.n, nb, t.r.l), t.r.n, rb, t.r.r)
  }

  function RotateRight<N>(t: Tree<N>): (t': Tree<N>)
    requires t.Bin? && t.l.Bin?
    ensures t'.Bin? && t'.r.Bin?
  {
    var a, b := t.b, t.l.b;
    var lb := if b <= 0 then (if b > a then b + 1 else a + 2) else (if a <= -1 then b + 1 else a + b + 2);
    var nb := if b <= 0 then a - b + 1 else a + 1;
    Bin(t.l.l, t.l.n, lb, Bin(t.l.r, t.n, nb, t.r))
  }

  lemma Regroup<N>(a: seq<N>, x: N, b: seq<N>, y: N, c: seq<N>)
    ensures (a + [x] + b) + [y] + c == a + [x] + (b + [y] + c)
  {}

  /** The closed formulas are right whatever the balances were. */
  lemma {:induction false} RotateLeftExact<N>(t: Tree<N>)
    requires Exact(t) && t.Bin? && t.r.Bin?
    ensures Exact(RotateLeft(t)) && Flat(RotateLeft(t)) == Flat(t)
  {
    Regroup(Flat(t.l), t.n, Flat(t.r.l), t.r.n, Flat(t.r.r));
  }

  lemma {:induction false} RotateRightExact<N>(t: Tree<N>)
    requires Exact(t) && t.Bin? && t.l.Bin?
    ensures Exact(RotateRight(t)) && Flat(RotateRight(t)) == Flat(t)
  {
    Regroup(Flat(t.l.l), t.l.n, Flat(t.l.r), t.n, Flat(t.r));
  }

  /** The rotations g_tree_node_balance makes find the children they need. */
  ghost predicate Rotatable<N>(t: Tree<N>) {
    && t.Bin?
    && (t.b < -1 ==> t.l.Bin? && (t.l.b > 0 ==> t.l.r.Bin?))
    && (t.b > 1 ==> t.r.Bin? && (t.r.b < 0 ==> t.r.l.Bin?))
  }

  /** g_tree_node_balance. */
  function Balance<N>(t: Tree<N>): (t': Tree<N>)
    requires Rotatable(t)
    ensures t'.Bin?
  {
    if t.b < -1 then RotateRight(if t.l.b > 0 then t.(l := RotateLeft(t.l)) else t)
    else if t.b > 1 then RotateLeft(if t.r.b < 0 then t.(r := RotateRight(t.r)) else t)
    else t
  }

  /** One side is at most two higher, everything below is balanced. */
  ghost predicate Nearly<N>(t: Tree<N>) {
    t.Bin? && t.b == Height(t.r) - Height(t.l) && -2 <= t.b <= 2 && Avl(t.l) && Avl(t.r)
  }

  lemma {:induction false} NearlyRotatable<N>(t: Tree<N>)
    requires Nearly(t)
    ensures Rotatable(t)
  {}

  /** What rebalancing achieves: the invariant and the order are back, and the height
      drops by one exactly when the result is even; it is even if the higher child was not. */
  ghost predicate Rebalanced<N>(t: Tree<N>, child: Tree<N>, t': Tree<N>) {
    && Avl(t') && t'.Bin? && Flat(t') == Flat(t)
    && Height(t') == (if t'.b == 0 then Height(t) - 1 else Height(t))
    && (child.Bin? && child.b != 0 ==> t'.b == 0)
  }

  lemma {:induction false} SingleLeft<N>(t: Tree<N>)
    requires Nearly(t) && t.b == 2 && t.r.Bin? && t.r.b >= 0
    ensures Rebalanced(t, t.r, RotateLeft(t))
  {
    AvlIsExact(t.l);
    AvlIsExact(t.r);
    RotateLeftExact(t);
  }

  lemma {:induction false} SingleRight<N>(t: Tree<N>)
    requires Nearly(t) && t.b == -2 && t.l.Bin? && t.l.b <= 0
    ensures Rebalanced(t, t.l, RotateRight(t))
  {
    AvlIsExact(t.l);
    AvlIsExact(t.r);
    RotateRightExact(t);
  }

  lemma {:induction false} DoubleLeft<N>(t: Tree<N>)
    requires Nearly(t) && t.b == 2 && t.r.Bin? && t.r.b < 0 && t.r.l.Bin?
    ensures Rebalanced(t, t.r, RotateLeft(t.(r := RotateRight(t.r))))
  {
    AvlIsExact(t.l);
    AvlIsExact(t.r);
    RotateRightExact(t.r);
    RotateLeftExact(t.(r := RotateRight(t.r)));
    var x := t.r.l;
    assert Height(t.r) == 1 + Height(x) && Height(t.l) == Height(t.r.r) == Height(x) - 1;
    var t' := RotateLeft(t.(r := RotateRight(t.r)));
    assert t'.l.l == t.l && t'.l.r == x.l && t'.r.l == x.r && t'.r.r == t.r.r;
    assert Exact(t'.l) && Exact(t'.r) && Avl(x) && Avl(t.r.r);
    assert Avl(t'.l) && Avl(t'.r);
  }

  lemma {:induction false} DoubleRight<N>(t: Tree<N>)
    requires Nearly(t) && t.b == -2 && t.l.Bin? && t.l.b > 0 && t.l.r.Bin?
    ensures Rebalanced(t, t.l, RotateRight(t.(l := RotateLeft(t.l))))
  {
    AvlIsExact(t.l);
    AvlIsExact(t.r);
    RotateLeftExact(t.l);
    RotateRightExact(t.(l := RotateLeft(t.l)));
    var x := t.l.r;
    assert Height(t.l) == 1 + Height(x) && Height(t.r) == Height(t.l.l) == Height(x) - 1;
    var t' := RotateRight(t.(l := RotateLeft(t.l)));
    assert t'.l.l == t.l.l && t'.l.r == x.l && t'.r.l == x.r && t'.r.r == t.r;
    assert Exact(t'.l) && Exact(t'.r) && Avl(x) && Avl(t.l.l);
    assert Avl(t'.l) && Avl(t'.r);
  }

  /** g_tree_node_balance. */
  lemma {:induction false} BalanceAvl<N>(t: Tree<N>)
    requires Nearly(t)
    ensures Rotatable(t)
    ensures -1 <= t.b <= 1 ==> Balance(t) == t && Avl(t)
    ensures t.b == -2 ==> Rebalanced(t, t.l, Balance(t))
    ensures t.b == 2 ==> Rebalanced(t, t.r, Balance(t))
  {
    NearlyRotatable(t);
    if t.b == -2 {
      if t.l.b > 0 { DoubleRight(t); } else { SingleRight(t); }
    } else if t.b == 2 {
      if t.r.b < 0 { DoubleLeft(t); } else { SingleLeft(t); }
    }
  }

  /** The path is balanced for a subtree of height `h` in its hole. */
  ghost predicate PathAvl<N>(c: Path<N>, h: int) {
    match c
    case Top => true
    case InLeft(up, _, b, r) => b == Height(r) - h && -1 <= b <= 1 && Avl(r) && PathAvl(up, 1 + Max(h, Height(r)))
    case InRight(up, l, _, b) => b == h - Height(l) && -1 <= b <= 1 && Avl(l) && PathAvl(up, 1 + Max(Height(l), h))
  }

  lemma {:induction false} PlugAvl<N>(c: Path<N>, t: Tree<N>)
    ensures Avl(t) && PathAvl(c, Height(t)) <==> Avl(Plug(c, t))
    decreases c
  {
    hide Avl, Height;
    match c
    case Top =>
    case InLeft(up, n, b, r) =>
      NodeShape(t, n, b, r);
      PlugAvl(up, Bin(t, n, b, r));
    case InRight(up, l, n, b) =>
      NodeShape(l, n, b, t);
      PlugAvl(up, Bin(l, n, b, t));
  }

  /** One level of the definitions. */
  lemma NodeShape<N>(l: Tree<N>, n: N, b: int, r: Tree<N>)
    ensures Height(Bin(l, n, b, r)) == 1 + Max(Height(l), Height(r))
    ensures Avl(Bin(l, n, b, r)) <==> b == Height(r) - Height(l) && -1 <= b <= 1 && Avl(l) && Avl(r)
  {}

  /** The parent in `c`, with subtree `t` under it and its balance moved by `d` towards
      the other side (d = 1: this side shrank; d = -1: it grew). */
  function Parent<N>(c: Path<N>, t: Tree<N>, d: int): Tree<N>
    requires !c.Top?
  {
    match c
    case InLeft(_, n, b, r) => Bin(t, n, b + d, r)
    case InRight(_, l, n, b) => Bin(l, n, b - d, t)
  }

  /** A subtree that has just grown, or has absorbed the growth below it. */
  ghost predicate Grown<N>(c: Path<N>, t: Tree<N>) {
    && Nearly(t)
    && (t.b == -2 ==> t.l.Bin? && t.l.b != 0) && (t.b == 2 ==> t.r.Bin? && t.r.b != 0)
    && PathAvl(c, if t.b == 0 then Height(t) else Height(t) - 1)
  }

  /** A subtree that has lost a node on one side. */
  ghost predicate Shrunk<N>(c: Path<N>, t: Tree<N>) {
    && Nearly(t)
    && PathAvl(c, if t.b == 0 then Height(t) + 1 else Height(t))
  }

  /** One turn of the loop that restores balance after an insertion. */
  lemma {:induction false} GrownStep<N>(c: Path<N>, t: Tree<N>)
    requires Grown(c, t)
    ensures Rotatable(t) && Avl(Balance(t)) && Flat(Balance(t)) == Flat(t)
    ensures Balance(t).b == 0 || c.Top? ==> Avl(Plug(c, Balance(t)))
    ensures Balance(t).b != 0 && !c.Top? ==> Grown(c.up, Parent(c, Balance(t), -1))
  {
    hide Balance, Flat, Rotatable, Avl, Height, Plug;
    BalanceAvl(t);
    PlugAvl(c, Balance(t));
    if Balance(t).b != 0 && !c.Top? { GrowParent(c, Balance(t)); }
  }

  /** One turn of the loop that restores balance after a removal. */
  lemma {:induction false} ShrunkStep<N>(c: Path<N>, t: Tree<N>)
    requires Shrunk(c, t)
    ensures Rotatable(t) && Avl(Balance(t)) && Flat(Balance(t)) == Flat(t)
    ensures Balance(t).b != 0 || c.Top? ==> Avl(Plug(c, Balance(t)))
    ensures Balance(t).b == 0 && !c.Top? ==> Shrunk(c.up, Parent(c, Balance(t), 1))
  {
    hide Balance, Flat, Rotatable, Avl, Height, Plug;
    BalanceAvl(t);
    PlugAvl(c, Balance(t));
    if Balance(t).b == 0 && !c.Top? { ShrinkInto(c, Balance(t)); }
  }

  lemma {:induction false} ShrinkInto<N>(c: Path<N>, x: Tree<N>)
    requires !c.Top? && Avl(x) && PathAvl(c, Height(x) + 1)
    ensures Shrunk(c.up, Parent(c, x, 1))
  {
    hide Avl, Height;
    match c
    case InLeft(up, n, b, r) => NodeShape(x, n, b + 1, r);
    case InRight(up, l, n, b) => NodeShape(l, n, b - 1, x);
  }

  lemma {:induction false} GrowParent<N>(c: Path<N>, x: Tree<N>)
    requires !c.Top? && Avl(x) && PathAvl(c, Height(x) - 1) && x.Bin? && x.b != 0
    ensures Grown(c.up, Parent(c, x, -1))
  {
    hide Avl, Height;
    match c
    case InLeft(up, n, b, r) => NodeShape(x, n, b - 1, r);
    case InRight(up, l, n, b) => NodeShape(l, n, b + 1, x);
  }

  lemma {:induction false} GrowInto<N>(c: Path<N>, x: Tree<N>)
    requires !c.Top? && PathAvl(c, 0) && x.Bin? && x.l.Nil? && x.r.Nil? && x.b == 0
    ensures Grown(c.up, Parent(c, x, -1))
  {}

  lemma FlatParent<N>(c: Path<N>, t: Tree<N>, d: int)
    requires !c.Top?
    ensures Before(c.up) + Flat(Parent(c, t, d)) + After(c.up) == Before(c) + Flat(t) + After(c)
  {
    match c
    case InLeft(up, n, b, r) => Reassociate(Before(up), Flat(t), [n], Flat(r), After(up));
    case InRight(up, l, n, b) => Reassociate(Before(up), Flat(l), [n], Flat(t), After(up));
  }

  /** Path to the hole that the leftmost node of `r` occupies, below `c`. */
  function Spine<N>(c: Path<N>, r: Tree<N>): Path<N>
    requires r.Bin?
    decreases r
  {
    if r.l.Nil? then c else Spine(InLeft(c, r.n, r.b, r.r), r.l)
  }

  function Leftmost<N>(r: Tree<N>): (t: Tree<N>)
    requires r.Bin?
    ensures t.Bin? && t.l.Nil?
  {
    if r.l.Nil? then r else Leftmost(r.l)
  }

  lemma {:induction false} SpinePlug<N>(c: Path<N>, r: Tree<N>)
    requires r.Bin?
    ensures Plug(Spine(c, r), Leftmost(r)) == Plug(c, r)
    ensures Depth(Spine(c, r)) + 1 <= Depth(c) + Height(r)
    ensures Before(Spine(c, r)) == Before(c)
    decreases r
  {
    if r.l.Bin? { SpinePlug(InLeft(c, r.n, r.b, r.r), r.l); }
  }

  lemma {:induction false} PlugHeight<N>(c: Path<N>, t: Tree<N>)
    ensures Depth(c) + Height(t) <= Height(Plug(c, t))
    decreases c
  {
    match c
    case Top =>
    case InLeft(up, n, b, r) => PlugHeight(up, Bin(t, n, b, r));
    case InRight(up, l, n, b) => PlugHeight(up, Bin(l, n, b, t));
  }

  function Fib(n: nat): nat {
    if n < 2 then n else Fib(n - 1) + Fib(n - 2)
  }

  /** A balanced tree of height h holds at least Fib(h + 2) - 1 nodes. */
  lemma {:induction false} AvlSize<N>(t: Tree<N>)
    requires Avl(t)
    ensures Size(t) + 1 >= Fib(Height(t) + 2)
  {
    hide Fib;
    if t.Bin? {
      AvlSize(t.l);
      AvlSize(t.r);
      FibStep(Height(t.l), Height(t.r));
    } else {
      FibTwo();
    }
  }

  /** The balanced tree of height h with the fewest nodes, numbered in order from `from`. */
  function Sparse(h: nat, from: int): Tree<int> {
    if h == 0 then Nil
    else if h == 1 then Bin(Nil, from, 0, Nil)
    else
      var l := Sparse(h - 1, from);
      Bin(l, from + Size(l), -1, Sparse(h - 2, from + Size(l) + 1))
  }

  lemma {:induction false} SparseShape(h: nat, from: int)
    ensures Avl(Sparse(h, from)) && Height(Sparse(h, from)) == h && Size(Sparse(h, from)) + 1 == Fib(h + 2)
    decreases h
  {
    hide Avl, Height, Size, Fib;
    if h >= 2 {
      var l := Sparse(h - 1, from);
      SparseShape(h - 1, from);
      SparseShape(h - 2, from + Size(l) + 1);
      SparseStep(l, from + Size(l), Sparse(h - 2, from + Size(l) + 1), h);
    } else {
      SparseStart(from);
    }
  }

  lemma SparseStart(from: int)
    ensures Avl<int>(Nil) && Height<int>(Nil) == 0 && Size<int>(Nil) + 1 == Fib(2)
    ensures var t := Bin(Nil, from, 0, Nil); Avl(t) && Height(t) == 1 && Size(t) + 1 == Fib(3)
  {
    assert Fib(3) == Fib(2) + Fib(1);
  }

  lemma SparseStep(l: Tree<int>, n: int, r: Tree<int>, h: nat)
    requires h >= 2 && Avl(l) && Avl(r) && Height(l) == h - 1 && Height(r) == h - 2
    requires Size(l) + 1 == Fib(h + 1) && Size(r) + 1 == Fib(h)
    ensures Avl(Bin(l, n, -1, r)) && Height(Bin(l, n, -1, r)) == h && Size(Bin(l, n, -1, r)) + 1 == Fib(h + 2)
  {}

  lemma {:induction false} SparseOrder(h: nat, from: int)
    ensures forall i :: 0 <= i < |Flat(Sparse(h, from))| ==> Flat(Sparse(h, from))[i] == from + i
    decreases h
  {
    if h >= 2 {
      var l := Sparse(h - 1, from);
      SparseOrder(h - 1, from);
      SparseOrder(h - 2, from + Size(l) + 1);
    }
  }

  /** Its leftmost node is as deep as the tree is high. */
  lemma {:induction false} SparseDeep(c: Path<int>, h: nat, from: int)
    requires h > 0
    ensures Sparse(h, from).Bin? && Depth(Spine(c, Sparse(h, from))) == Depth(c) + h - 1
    decreases h
  {
    if h >= 2 {
      var t := Sparse(h, from);
      SparseDeep(InLeft(c, t.n, t.b, t.r), h - 1, from);
    }
  }

  lemma FibTwo()
    ensures Fib(2) == 1
  {}

  lemma FibStep(x: nat, y: nat)
    requires -1 <= x - y <= 1
    ensures Fib(x + 2) + Fib(y + 2) >= Fib(1 + Max(x, y) + 2)
  {
    var h := 1 + Max(x, y);
    assert Fib(h + 2) == Fib(h + 1) + Fib(h);
    if x == y { FibMono(h, h + 1); }
  }

  lemma {:induction false} FibMono(m: nat, n: nat)
    requires m <= n
    ensures Fib(m) <= Fib(n)
    decreases n
  {
    if m < n { FibMono(m, n - 1); if n == 1 {} else { assert Fib(n) == Fib(n - 1) + Fib(n - 2); } }
  }

  function Rightmost<N>(l: Tree<N>): (t: Tree<N>)
    requires l.Bin?
    ensures t.Bin? && t.r.Nil?
  {
    if l.r.Nil? then l else Rightmost(l.r)
  }

  /** The node above the leftmost one. */
  function MinParent<N>(r: Tree<N>): (t: Tree<N>)
    requires r.Bin? && r.l.Bin?
    ensures t.Bin? && t.l.Bin?
  {
    if r.l.l.Nil? then r else MinParent(r.l)
  }

  /** `r` without its leftmost node, the balance above it moved. */
  function DropMin<N>(r: Tree<N>): (t: Tree<N>)
    requires r.Bin? && r.l.Bin?
    ensures t.Bin? && t.n == r.n
  {
    if r.l.l.Nil? then Bin(r.l.r, r.n, r.b + 1, r.r) else r.(l := DropMin(r.l))
  }

  lemma {:induction false} DropMinFocus<N>(c: Path<N>, r: Tree<N>)
    requires r.Bin? && r.l.Bin?
    ensures var cs := Spine(c, r);
            && cs.InLeft? && cs.n == MinParent(r).n && cs.b == MinParent(r).b
            && Plug(cs.up, Parent(cs, Leftmost(r).r, 1)) == Plug(c, DropMin(r))
            && MinParent(r).l == Leftmost(r)
    decreases r
  {
    var c' := InLeft(c, r.n, r.b, r.r);
    if r.l.l.Bin? { DropMinFocus(c', r.l); }
  }

  /** The path on which the balance is restored after the leftmost node of the right
      subtree has taken the place of the removed node. */
  lemma {:induction false} ReplacedBySuccessor<N>(c: Path<N>, t: Tree<N>)
    requires t.Bin? && t.l.Bin? && t.r.Bin? && Avl(Plug(c, t))
    ensures var x := Leftmost(t.r);
            var cs := Spine(InRight(c, t.l, x.n, t.b), t.r);
            && !cs.Top? && Shrunk(cs.up, Parent(cs, x.r, 1))
            && Before(cs.up) + Flat(Parent(cs, x.r, 1)) + After(cs.up) == Before(c) + Flat(t.l) + Flat(t.r) + After(c)
            && Depth(cs) + 1 <= Height(Plug(c, t))
  {
    hide Avl, Height, Shrunk, PathAvl, Parent, Plug, Spine, Leftmost, Flat, Before, After;
    var x := Leftmost(t.r);
    var base := InRight(c, t.l, x.n, t.b);
    SpineNotTop(base, t.r);
    ReplacedAvl(c, t);
    SpinePlug(base, t.r);
    PlugHeight(c, t);
    NodeShape(t.l, t.n, t.b, t.r);
    ReplacedList(c, t);
    ShrinkInto(Spine(base, t.r), x.r);
  }

  lemma {:induction false} ReplacedList<N>(c: Path<N>, t: Tree<N>)
    requires t.Bin? && t.r.Bin? && !Spine(InRight(c, t.l, Leftmost(t.r).n, t.b), t.r).Top?
    ensures var x := Leftmost(t.r);
            var cs := Spine(InRight(c, t.l, x.n, t.b), t.r);
            Before(cs.up) + Flat(Parent(cs, x.r, 1)) + After(cs.up) == Before(c) + Flat(t.l) + Flat(t.r) + After(c)
  {
    hide Parent, Plug, Spine, Leftmost, Flat, Before, After;
    var x := Leftmost(t.r);
    var base := InRight(c, t.l, x.n, t.b);
    var cs := Spine(base, t.r);
    SpinePlug(base, t.r);
    FlatParent(cs, x.r, 1);
    FlatPlug(cs, x);
    FlatPlug(base, t.r);
    FlatLeftmost(x);
    AroundRight(c, t.l, x.n, t.b);
    SameTail(Before(base), Flat(t.r), After(c), Flat(x), After(cs), x.n, Flat(x.r), Before(c) + Flat(t.l));
  }

  lemma FlatLeftmost<N>(x: Tree<N>)
    requires x.Bin? && x.l.Nil?
    ensures Flat(x) == [x.n] + Flat(x.r)
  {}

  lemma AroundRight<N>(c: Path<N>, l: Tree<N>, n: N, b: int)
    ensures Before(InRight(c, l, n, b)) == Before(c) + Flat(l) + [n] && After(InRight(c, l, n, b)) == After(c)
  {}

  /** List bookkeeping for the lemma above. */
  lemma SameTail<N>(b: seq<N>, r: seq<N>, a: seq<N>, x: seq<N>, z: seq<N>, n: N, xr: seq<N>, p: seq<N>)
    requires b == p + [n] && x == [n] + xr && b + r + a == b + x + z
    ensures b + xr + z == p + r + a
  {
    assert r + a == x + z by {
      assert (b + (r + a))[|b|..] == r + a;
      assert (b + (x + z))[|b|..] == x + z;
      assert b + r + a == b + (r + a) && b + x + z == b + (x + z);
    }
    assert p + r + a == p + (r + a) && b + xr + z == p + ([n] + xr + z);
  }

  lemma {:induction false} SpineNotTop<N>(c: Path<N>, r: Tree<N>)
    requires r.Bin? && !c.Top?
    ensures !Spine(c, r).Top?
    decreases r
  {
    if r.l.Bin? { SpineNotTop(InLeft(c, r.n, r.b, r.r), r.l); }
  }

  lemma {:induction false} ReplacedAvl<N>(c: Path<N>, t: Tree<N>)
    requires t.Bin? && t.l.Bin? && t.r.Bin? && Avl(Plug(c, t))
    ensures var x := Leftmost(t.r);
            var cs := Spine(InRight(c, t.l, x.n, t.b), t.r);
            Avl(x.r) && PathAvl(cs, Height(x.r) + 1)
  {
    var x := Leftmost(t.r);
    var base := InRight(c, t.l, x.n, t.b);
    PlugAvl(c, t);
    PlugAvl(base, t.r);
    SpinePlug(base, t.r);
    PlugAvl(Spine(base, t.r), x);
  }
}
