/** The set of emulation exits kept in a balanced tree: the UC_CTL_UC_EXITS cases of
    uc_ctl (uc.c) and uc_add_exit, uc_addr_is_exit (uc_priv.h). */
module Exits {
  import Addresses
  import GTree
  import opened SortedPairs
  import opened Wrappers

  const MARK: nat := 1

  datatype Error = OK | ARG

  /** uc_exits_cmp */
  function ExitsCmp(lhs: nat, rhs: nat): int {
    if lhs < rhs then -1 else if lhs == rhs then 0 else 1
  }

  lemma ExitsOrder()
    ensures Order(ExitsCmp)
  {}

  /** The first components of a list of pairs. */
  function Keys<K, V>(s: seq<(K, V)>): (r: seq<K>)
    ensures |r| == |s|
  {
    seq(|s|, i requires 0 <= i < |s| => s[i].0)
  }

  ghost predicate StrictlyIncreasing(s: seq<nat>) {
    forall i, j :: 0 <= i < j < |s| ==> s[i] < s[j]
  }

  ghost predicate AllMarked(s: seq<(nat, nat)>) {
    forall i :: 0 <= i < |s| ==> s[i].1 == MARK
  }

  lemma {:induction false} InsertedKeys(s: seq<(nat, nat)>, key: nat)
    requires AllMarked(s)
    ensures var t := Inserted(ExitsCmp, s, key, MARK, false);
            AllMarked(t) && |t| <= |s| + 1 && forall k :: k in Keys(t) <==> k in Keys(s) || k == key
  {
    var t := Inserted(ExitsCmp, s, key, MARK, false);
    if s != [] {
      assert Keys(s) == [s[0].0] + Keys(s[1..]);
      if key > s[0].0 {
        InsertedKeys(s[1..], key);
        assert t[1..] == Inserted(ExitsCmp, s[1..], key, MARK, false);
        assert Keys(t) == [s[0].0] + Keys(t[1..]);
      } else if key < s[0].0 {
        assert Keys(t) == [key] + Keys(s);
      } else {
        assert Keys(t) == Keys(s);
      }
    } else {
      assert Keys(t) == [key];
    }
  }

  lemma {:induction false} LookupKeys(s: seq<(nat, nat)>, key: nat)
    requires AllMarked(s)
    ensures Lookup(ExitsCmp, s, key) == if key in Keys(s) then Some(MARK) else None
  {
    if s != [] {
      LookupKeys(s[1..], key);
      assert Keys(s) == [s[0].0] + Keys(s[1..]);
    }
  }

  /** The result of uc_read_exit_iter: never stop. */
  predicate ReadExitIter(key: nat, value: nat) { false }

  lemma VisitedAll(s: seq<(nat, nat)>)
    ensures GTree.Visited(s, ReadExitIter) == s
  {
    GTree.VisitedPrefix(s, |s|, ReadExitIter);
  }

  class Engine {
    var useExits: bool
    var exits: seq<nat>
    var nestedLevel: nat
    const ctlExits: GTree.GTree<nat, nat>

    ghost predicate Valid()
      reads this, ctlExits
    {
      ctlExits.Valid() && ctlExits.cmp == ExitsCmp && AllMarked(ctlExits.Contents())
    }

    /** The exits that are set. */
    ghost function ExitList(): seq<nat>
      reads this, ctlExits
    {
      Keys(ctlExits.Contents())
    }

    constructor ()
      ensures Valid() && fresh(ctlExits) && ExitList() == [] && !useExits && nestedLevel == 0
    {
      ExitsOrder();
      useExits, exits, nestedLevel := false, [], 0;
      ctlExits := new GTree.GTree(ExitsCmp);
    }

    lemma ListIncreasing()
      requires Valid()
      ensures StrictlyIncreasing(ExitList())
    {
      var s, k := ctlExits.Contents(), ExitList();
      forall i, j | 0 <= i < j < |k| ensures k[i] < k[j] {
        assert ExitsCmp(s[i].0, s[j].0) < 0;
      }
    }

    /** uc_add_exit */
    method AddExit(addr: nat)
      requires Valid() && ctlExits.nnodes < GTree.NODES_LIMIT
      modifies ctlExits
      ensures Valid() && forall k :: k in ExitList() <==> k in old(ExitList()) || k == addr
      ensures ctlExits.nnodes <= old(ctlExits.nnodes) + 1
    {
      var node := Addresses.FreshAddress(ctlExits.nodes);
      InsertedKeys(ctlExits.Contents(), addr);
      ctlExits.Insert(addr, MARK, node);
    }

    /** UC_CTL_UC_EXITS, write: the new exits replace the old ones. */
    method WriteExits(addrs: seq<nat>) returns (err: Error)
      requires Valid() && |addrs| < GTree.NODES_LIMIT
      modifies ctlExits
      ensures Valid()
      ensures !useExits ==> err == ARG && ExitList() == old(ExitList())
      ensures useExits ==> err == OK && StrictlyIncreasing(ExitList()) && forall k :: k in ExitList() <==> k in addrs
    {
      if !useExits { return ARG; }
      ctlExits.RemoveAll();
      for i := 0 to |addrs|
        invariant Valid() && (forall k :: k in ExitList() <==> k in addrs[..i]) && ctlExits.nnodes <= i
      {
        AddExit(addrs[i]);
        assert addrs[..i + 1] == addrs[..i] + [addrs[i]];
      }
      assert addrs[..|addrs|] == addrs;
      ListIncreasing();
      err := OK;
    }

    /** UC_CTL_UC_EXITS, read, into an array of `cnt` entries. */
    method ReadExits(cnt: nat) returns (err: Error, addrs: seq<nat>)
      requires Valid()
      ensures err == OK <==> useExits && cnt >= |ExitList()|
      ensures err == OK ==> addrs == ExitList() && StrictlyIncreasing(addrs)
    {
      addrs := [];
      if !useExits { return ARG, addrs; }
      if cnt < ctlExits.nnodes { return ARG, addrs; }
      var visited := ctlExits.Foreach(ReadExitIter);
      VisitedAll(ctlExits.Contents());
      addrs := Keys(visited);
      ListIncreasing();
      err := OK;
    }

    /** UC_CTL_UC_EXITS_CNT, read. */
    method ExitsCount() returns (err: Error, cnt: nat)
      requires Valid()
      ensures err == OK <==> useExits
      ensures cnt == |ExitList()|
    {
      cnt := ctlExits.nnodes;
      err := if useExits then OK else ARG;
    }

    /** uc_addr_is_exit; without the exits mode it is asked during emulation only. */
    method AddrIsExit(addr: nat) returns (isExit: bool)
      requires Valid() && (!useExits ==> 0 < nestedLevel <= |exits|)
      ensures isExit <==> if useExits then addr in ExitList() else exits[nestedLevel - 1] == addr
    {
      if useExits {
        var value := ctlExits.TreeLookup(addr);
        LookupKeys(ctlExits.Contents(), addr);
        isExit := value == Some(MARK);
      } else {
        isExit := exits[nestedLevel - 1] == addr;
      }
    }
  }
}
