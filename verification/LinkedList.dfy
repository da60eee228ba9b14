/** The singly linked list of list.c, with the memory of its items made explicit. */
module LinkedList {
  import opened Addresses
  import opened HookState

  datatype Item = Item(next: nat, data: nat)

  type Items = map<nat, Item>

  /** Following the links from `head` visits exactly the addresses `path`. */
  ghost predicate Chain(items: Items, head: nat, path: seq<nat>)
    decreases |path|
  {
    if path == [] then head == NULL
    else head != NULL && head == path[0] && head in items && Chain(items, items[head].next, path[1..])
  }

  ghost function Data(items: Items, path: seq<nat>): seq<nat>
    requires forall a :: a in path ==> a in items
  {
    seq(|path|, i requires 0 <= i < |path| => items[path[i]].data)
  }

  lemma {:induction false} ChainIn(items: Items, head: nat, path: seq<nat>)
    requires Chain(items, head, path)
    ensures forall a :: a in path ==> a in items && a != NULL
    decreases |path|
  {
    if path != [] {
      ChainIn(items, items[head].next, path[1..]);
      assert path == [path[0]] + path[1..];
    }
  }

  /** Changing an item off the path does not disturb it. */
  lemma {:induction false} ChainFrame(items: Items, items': Items, head: nat, path: seq<nat>)
    requires Chain(items, head, path)
    requires forall a :: a in path ==> a in items && a in items' && items'[a] == items[a]
    ensures Chain(items', head, path)
    decreases |path|
  {
    if path != [] { ChainFrame(items, items', items[head].next, path[1..]); }
  }

  /** A path can be cut at any of its addresses, and joined there. */
  lemma {:induction false} ChainSplit(items: Items, head: nat, path: seq<nat>, k: nat)
    requires Chain(items, head, path) && k < |path|
    ensures path[k] in items && path[k] != NULL && Chain(items, path[k], path[k..])
    ensures Chain(items, items[path[k]].next, path[k + 1..])
    decreases |path|
  {
    if k == 0 {
      assert path[0..] == path;
    } else {
      ChainSplit(items, items[head].next, path[1..], k - 1);
      assert path[1..][k - 1..] == path[k..] && path[1..][k..] == path[k + 1..];
    }
  }

  /** Redirecting the link of the item before position `k` to `to`. */
  lemma {:induction false} ChainRelink(items: Items, items': Items, head: nat, path: seq<nat>, k: nat, to: nat, rest: seq<nat>)
    requires Chain(items, head, path) && Distinct(path) && 0 < k <= |path|
    requires Chain(items', to, rest)
    requires forall i :: 0 <= i < k - 1 ==> path[i] in items' && path[i] in items && items'[path[i]] == items[path[i]]
    requires path[k - 1] in items' && path[k - 1] in items && items'[path[k - 1]].next == to
    ensures Chain(items', head, path[..k] + rest)
    decreases |path|
  {
    assert (path[..k] + rest)[0] == path[0] && (path[..k] + rest)[1..] == path[1..][..k - 1] + rest;
    if k == 1 {
      assert path[1..][..0] + rest == rest;
    } else {
      ChainRelink(items, items', items[head].next, path[1..], k - 1, to, rest);
    }
  }

  /** A whole list: no item outside it, and the tail is its last one. */
  ghost predicate Whole(items: Items, head: nat, tail: nat, path: seq<nat>) {
    && Chain(items, head, path) && Distinct(path)
    && (forall a :: a in items <==> a in path)
    && tail == if path == [] then NULL else path[|path| - 1]
  }

  lemma PrependedChain(items: Items, head: nat, path: seq<nat>, item: nat, data: nat)
    requires Chain(items, head, path) && item !in items && item != NULL
    ensures Chain(items[item := Item(head, data)], item, [item] + path)
  {
    ChainIn(items, head, path);
    var after, path' := items[item := Item(head, data)], [item] + path;
    ChainFrame(items, after, head, path);
    assert path'[1..] == path;
  }

  lemma Prepended(items: Items, head: nat, tail: nat, path: seq<nat>, item: nat, data: nat)
    requires Whole(items, head, tail, path) && item !in items && item != NULL
    ensures var after := items[item := Item(head, data)];
            Whole(after, item, if tail == NULL then item else tail, [item] + path) &&
            Data(after, [item] + path) == [data] + Data(items, path)
  {
    hide Chain, Distinct;
    ChainIn(items, head, path);
    PrependedChain(items, head, path, item, data);
    PrependedDistinct(path, item);
    var after, path' := items[item := Item(head, data)], [item] + path;
    if path != [] { assert path'[|path'| - 1] == path[|path| - 1] && path[|path| - 1] in path; }
    assert Data(after, path') == [data] + Data(items, path) by { PrependedData(items, path, item, Item(head, data)); }
  }

  lemma PrependedDistinct(path: seq<nat>, item: nat)
    requires Distinct(path) && item !in path
    ensures Distinct([item] + path)
  {}

  lemma PrependedData(items: Items, path: seq<nat>, item: nat, new': Item)
    requires item !in items && forall a :: a in path ==> a in items
    ensures Data(items[item := new'], [item] + path) == [new'.data] + Data(items, path)
  {}

  lemma Appended(items: Items, head: nat, tail: nat, path: seq<nat>, item: nat, data: nat)
    requires Whole(items, head, tail, path) && item !in items && item != NULL && path != []
    ensures tail in items && head != NULL
    ensures var after := items[item := Item(NULL, data)][tail := items[tail].(next := item)];
            Whole(after, head, item, path + [item]) && Data(after, path + [item]) == Data(items, path) + [data]
  {
    ChainIn(items, head, path);
    var after, n := items[item := Item(NULL, data)][tail := items[tail].(next := item)], |path|;
    assert Chain(after, item, [item]);
    ChainRelink(items, after, head, path, n, item, [item]);
    assert path[..n] == path;
    hide Chain;
  }

  /** The memory after the item at position `k` was unlinked and freed. */
  function Without(items: Items, path: seq<nat>, k: nat): Items
    requires k < |path| && forall a :: a in path ==> a in items
  {
    (if k == 0 then items else items[path[k - 1] := items[path[k - 1]].(next := items[path[k]].next)]) - {path[k]}
  }

  lemma WithoutSame(items: Items, path: seq<nat>, k: nat)
    requires Distinct(path) && k < |path| && forall a :: a in path ==> a in items
    ensures var after, rest := Without(items, path, k), path[k + 1..];
            && (forall a :: a in rest ==> a in items && a in after && after[a] == items[a])
            && (forall i :: 0 <= i < k - 1 ==> path[i] in after && after[path[i]] == items[path[i]])
            && (k > 0 ==> path[k - 1] in after && after[path[k - 1]].next == items[path[k]].next)
  {}

  lemma UnlinkedChain(items: Items, head: nat, tail: nat, path: seq<nat>, k: nat)
    requires Whole(items, head, tail, path) && k < |path|
    ensures forall a :: a in path ==> a in items && a != NULL
    ensures Chain(Without(items, path, k), if k == 0 then items[path[k]].next else head, path[..k] + path[k + 1..])
  {
    ChainIn(items, head, path);
    ChainSplit(items, head, path, k);
    var rest, after := path[k + 1..], Without(items, path, k);
    WithoutSame(items, path, k);
    hide Chain, Without, Distinct;
    ChainFrame(items, after, items[path[k]].next, rest);
    if k == 0 {
      assert path[..k] + rest == rest;
    } else {
      ChainRelink(items, after, head, path, k, items[path[k]].next, rest);
    }
  }

  lemma PathWithout(path: seq<nat>, k: nat)
    requires Distinct(path) && k < |path|
    ensures Distinct(path[..k] + path[k + 1..])
    ensures forall a :: a in path[..k] + path[k + 1..] <==> a in path && a != path[k]
    ensures var path' := path[..k] + path[k + 1..];
            path' != [] ==> path'[|path'| - 1] == if k == |path| - 1 then path[k - 1] else path[|path| - 1]
  {}

  lemma DataWithout(items: Items, path: seq<nat>, k: nat)
    requires Distinct(path) && k < |path| && forall a :: a in path ==> a in items
    ensures forall a :: a in path[..k] + path[k + 1..] ==> a in Without(items, path, k)
    ensures Data(Without(items, path, k), path[..k] + path[k + 1..]) == Data(items, path)[..k] + Data(items, path)[k + 1..]
  {
    PathWithout(path, k);
  }

  lemma Unlinked(items: Items, head: nat, tail: nat, path: seq<nat>, k: nat)
    requires Whole(items, head, tail, path) && k < |path|
    ensures forall a :: a in path ==> a in items && a != NULL
    ensures var after, path' := Without(items, path, k), path[..k] + path[k + 1..];
            && Whole(after, if k == 0 then items[path[k]].next else head,
                     if path[k] == tail then (if k == 0 then NULL else path[k - 1]) else tail, path')
            && Data(after, path') == Data(items, path)[..k] + Data(items, path)[k + 1..]
            && |after| == |items| - 1
  {
    UnlinkedChain(items, head, tail, path, k);
    hide Chain;
    PathWithout(path, k);
    DataWithout(items, path, k);
    assert path[k] == tail <==> k == |path| - 1;
    hide Distinct, Data;
    assert Without(items, path, k).Keys == items.Keys - {path[k]};
  }

  function NthItem(path: seq<nat>, k: nat): nat {
    if k < |path| then path[k] else NULL
  }

  lemma Following(items: Items, head: nat, path: seq<nat>, k: nat)
    requires Chain(items, head, path)
    ensures head == NthItem(path, 0)
    ensures k < |path| ==> path[k] in items && path[k] != NULL && items[path[k]].next == NthItem(path, k + 1)
  {
    if k < |path| { ChainSplit(items, head, path, k); }
  }

  class List {
    var items: Items
    var head: nat
    var tail: nat
    ghost var path: seq<nat>

    ghost predicate Valid()
      reads this
    {
      Whole(items, head, tail, path)
    }

    /** The data of the items, in order. */
    ghost function Contents(): seq<nat>
      reads this
      requires Valid()
    {
      Data(items, path)
    }

    /** list_new */
    constructor ()
      ensures Valid() && Contents() == []
    {
      items, head, tail, path := map[], NULL, NULL, [];
    }

    /** list_insert */
    method Insert(data: nat)
      requires Valid()
      modifies this
      ensures Valid() && Contents() == [data] + old(Contents())
    {
      hide Chain;
      var item := FreshAddress(items);
      Prepended(items, head, tail, path, item, data);
      items := items[item := Item(head, data)];
      if tail == NULL {
        tail := item;
      }
      head := item;
      path := [item] + path;
    }

    /** list_append */
    method Append(data: nat)
      requires Valid()
      modifies this
      ensures Valid() && Contents() == old(Contents()) + [data]
    {
      var item := FreshAddress(items);
      if head == NULL {
        items := items[item := Item(NULL, data)];
        head := item;
      } else {
        Appended(items, head, tail, path, item, data);
        items := items[item := Item(NULL, data)];
        items := items[tail := items[tail].(next := item)];
      }
      tail := item;
      path := path + [item];
    }

    /** list_exists */
    method Exists(data: nat) returns (r: bool)
      requires Valid()
      ensures r <==> data in Contents()
    {
      hide Chain, Distinct;
      Following(items, head, path, 0);
      if head == NULL { return false; }
      var cur := head;
      ghost var k := 0;
      while cur != NULL
        invariant k <= |path| && cur == NthItem(path, k)
        invariant forall i :: 0 <= i < k ==> Contents()[i] != data
        decreases |path| - k
      {
        Following(items, head, path, k);
        var next := items[cur].next;
        if items[cur].data == data {
          assert Contents()[k] == data;
          return true;
        }
        cur := next;
        k := k + 1;
      }
      if k < |path| { Following(items, head, path, k); }
      return false;
    }

    /** list_remove: the first item with this data is unlinked and freed. */
    method Remove(data: nat) returns (found: bool)
      requires Valid()
      modifies this
      ensures Valid() && Contents() == RemoveFirst(old(Contents()), data)
      ensures found <==> data in old(Contents())
      ensures |items| == old(|items|) - if found then 1 else 0
    {
      hide Chain, Distinct, RemoveFirst;
      Following(items, head, path, 0);
      if head == NULL { return false; }
      var cur, prev := head, NULL;
      ghost var k := 0;
      while cur != NULL
        invariant items == old(items) && head == old(head) && tail == old(tail) && path == old(path)
        invariant k <= |path| && cur == NthItem(path, k) && prev == if k == 0 then NULL else path[k - 1]
        invariant forall i :: 0 <= i < k ==> Contents()[i] != data
        decreases |path| - k
      {
        Following(items, head, path, k);
        var next := items[cur].next;
        if items[cur].data == data {
          assert Contents()[k] == data;
          FirstAt(Contents(), data, k);
          Unlinked(items, head, tail, path, k);
          HeadOnly(items, head, tail, path, k);
          if cur == head {
            head := next;
          } else {
            items := items[prev := items[prev].(next := next)];
          }
          if cur == tail {
            tail := prev;
          }
          items := items - {cur};
          path := path[..k] + path[k + 1..];
          return true;
        }
        cur, prev := next, cur;
        k := k + 1;
      }
      if k < |path| { Following(items, head, path, k); }
      return false;
    }

    /** list_clear: every item is freed, and its data handed out once, in order. */
    method Clear() returns (deleted: seq<nat>)
      requires Valid()
      modifies this
      ensures Valid() && Contents() == [] && items == map[] && deleted == old(Contents())
    {
      hide Chain, Distinct;
      deleted := [];
      var cur := head;
      ghost var k := 0;
      Following(items, head, path, 0);
      assert path[0..] == path;
      while cur != NULL
        modifies this`items
        invariant k <= |path| && cur == NthItem(path, k) && deleted == old(Contents())[..k]
        invariant forall a :: a in items <==> a in path[k..]
        invariant forall a :: a in items ==> items[a] == old(items)[a]
        decreases |path| - k
      {
        Following(old(items), head, path, k);
        RestOnce(path, k);
        var next := items[cur].next;
        deleted := deleted + [items[cur].data];
        items := items - {cur};
        cur := next;
        k := k + 1;
      }
      if k < |path| { Following(old(items), head, path, k); }
      head, tail, path := NULL, NULL, [];
      EmptyList();
    }
  }

  lemma EmptyList()
    ensures Whole(map[], NULL, NULL, [])
  {}

  lemma RestOnce(path: seq<nat>, k: nat)
    requires Distinct(path) && k < |path|
    ensures path[k] in path[k..]
    ensures forall a :: a in path[k + 1..] <==> a in path[k..] && a != path[k]
  {}

  lemma HeadOnly(items: Items, head: nat, tail: nat, path: seq<nat>, k: nat)
    requires Whole(items, head, tail, path) && k < |path|
    ensures path[k] == head <==> k == 0
    ensures k > 0 ==> path[k - 1] in items && path[k - 1] != path[k]
  {
    Following(items, head, path, 0);
    hide Chain;
  }

  lemma {:induction false} FirstAt(s: seq<nat>, x: nat, k: nat)
    requires k < |s| && s[k] == x && forall i :: 0 <= i < k ==> s[i] != x
    ensures RemoveFirst(s, x) == s[..k] + s[k + 1..]
  {
    if k > 0 {
      FirstAt(s[1..], x, k - 1);
      assert s[1..][..k - 1] == s[1..k] && s[1..][k..] == s[k + 1..];
      assert s[..k] == [s[0]] + s[1..k];
    }
  }
}
