/** Hooks of uc.c: adding, deferred deletion and clearing, over nested emulation runs. */
module Hooks {
  import opened Addresses
  import opened Arithmetic
  import opened HookState
  import LinkedList

  /** What a program does to the engine: calls of the API, some of them made by the callbacks
      of an emulation run. */
  datatype Action =
    | Add(kind: int, accepted: bool)
    | Delete(handle: nat)
    | UseExits(on: bool)
    | Start(until: nat, count: nat, callbacks: seq<Action>)

  /** What takes effect, in order: the runs are flat, a refused hook and a run that is nested
      too deep are gone. */
  datatype Call = Adds(kind: int) | Deletes(handle: nat) | Sets(on: bool) | Begins(counted: bool)

  const UC_HOOK_INSN_IDX: nat := 1
  const UC_HOOK_CODE_IDX: nat := 2
  const UC_HOOK_TCG_OPCODE_IDX: nat := 16
  const UC_HOOK_CODE: int := 4
  const UC_MAX_NESTED_LEVEL: nat := 64
  const INT_RANGE: int := 0x8000_0000

  datatype Error = OK | HOOK | RESOURCE

  /** n >> i for a word that is not negative. */
  function Shift(n: nat, i: nat): nat {
    if i == 0 then n else Shift(n / 2, i - 1)
  }

  lemma ShiftStart(n: nat)
    ensures Shift(n, 0) == n
  {}

  lemma {:induction false} ShiftStep(n: nat, i: nat)
    ensures Shift(n, i + 1) == Shift(n, i) / 2
  {
    if i > 0 { ShiftStep(n / 2, i - 1); }
  }

  lemma {:induction false} ShiftZero(n: nat, i: nat, j: nat)
    requires i <= j && Shift(n, i) == 0
    ensures Shift(n, j) == 0
    decreases j
  {
    if i < j {
      ShiftZero(n, i, j - 1);
      ShiftStep(n, j - 1);
    }
  }

  lemma {:induction false} ShiftDivides(n: nat, i: nat)
    ensures Shift(n, i) == n / Pow2(i)
  {
    if i > 0 {
      ShiftDivides(n / 2, i - 1);
      HalvesDivide(n, Pow2(i - 1));
    }
  }

  lemma HalvesDivide(n: nat, d: nat)
    requires d > 0
    ensures n / 2 / d == n / (2 * d)
  {
    var q, r := n / 2 / d, n / 2 % d;
    DivModEq(n, 2);
    DivModEq(n / 2, d);
    DivModUnique(n, q, 2 * r + n % 2, 2 * d);
  }

  /** The lists of a type are those of the bits set in its 32-bit word, except that hooks on
      instructions and opcodes are on one list only. */
  lemma WantedBits(kind: int, i: nat)
    ensures Bit(kind, i) <==> kind % 0x1_0000_0000 / Pow2(i) % 2 == 1
    ensures Bit(kind, 1) ==> (Wanted(kind, i) <==> i == 1)
    ensures !Bit(kind, 1) && Bit(kind, 16) ==> (Wanted(kind, i) <==> i == 16)
    ensures !Bit(kind, 1) && !Bit(kind, 16) ==> (Wanted(kind, i) <==> i < 17 && kind > 0 && Bit(kind, i))
  {
    ShiftDivides(kind % (2 * INT_RANGE), i);
    hide Shift, Pow2;
  }

  /** Bit `i` of a 32-bit type word. */
  predicate Bit(kind: int, i: nat) { Shift(kind % (2 * INT_RANGE), i) % 2 == 1 }

  /** The lists a new hook of this type goes on. */
  ghost predicate Wanted(kind: int, i: nat) {
    if Bit(kind, UC_HOOK_INSN_IDX) then i == UC_HOOK_INSN_IDX
    else if Bit(kind, UC_HOOK_TCG_OPCODE_IDX) then i == UC_HOOK_TCG_OPCODE_IDX
    else i < UC_HOOK_MAX && kind > 0 && Bit(kind, i)
  }

  function Linked(s: seq<nat>, h: nat, first: bool): seq<nat> {
    if first then [h] + s else s + [h]
  }

  function Repeated(h: nat, n: nat): seq<nat> { seq(n, _ => h) }

  class Engine {
    var heap: Heap
    /** The lists of hooks by type, and the hooks to delete. */
    const lists: seq<LinkedList.List>
    const deletions: LinkedList.List
    /** What the lists hold. */
    ghost var hooks: seq<seq<nat>>
    ghost var toDel: seq<nat>
    var nestedLevel: nat
    var exits: seq<nat>
    var useExits: bool
    var countHook: nat
    var hookInsert: bool

    /** The lists are separate and hold what the ghost fields say. */
    ghost predicate Stored()
      reads this`hooks, this`toDel, lists, deletions
    {
      && |lists| == |hooks| == UC_HOOK_MAX && deletions !in lists
      && (forall i, j :: 0 <= i < j < |lists| ==> lists[i] != lists[j])
      && (forall i :: 0 <= i < |lists| ==> lists[i].Valid() && lists[i].Contents() == hooks[i])
      && deletions.Valid() && deletions.Contents() == toDel
    }

    ghost predicate Valid()
      reads this, lists, deletions
    {
      && Stored()
      && |hooks| == UC_HOOK_MAX && |exits| == UC_MAX_NESTED_LEVEL && nestedLevel <= UC_MAX_NESTED_LEVEL
      && Counted(heap, hooks, toDel) && Once(hooks) && Waiting(heap, hooks, toDel)
      && forall h :: h in heap ==> heap[h].refs > 0
    }

    constructor ()
      ensures Valid() && heap == map[] && toDel == [] && nestedLevel == 0 && !hookInsert && countHook == 0 && !useExits
      ensures fresh(lists) && fresh(deletions)
    {
      var ls, del := NewLists();
      lists, deletions := ls, del;
      heap, hooks, toDel, nestedLevel := map[], seq(UC_HOOK_MAX, _ => []), [], 0;
      exits, useExits, countHook, hookInsert := seq(UC_MAX_NESTED_LEVEL, _ => 0), false, 0, false;
      new;
      forall h ensures Occurrences(hooks, h) == 0 { OccurrencesNone(hooks, h); }
    }

    /** Empty lists, none of them twice. */
    static method NewLists() returns (ls: seq<LinkedList.List>, del: LinkedList.List)
      ensures |ls| == UC_HOOK_MAX && fresh(ls) && fresh(del) && del !in ls
      ensures forall i, j :: 0 <= i < j < |ls| ==> ls[i] != ls[j]
      ensures forall i :: 0 <= i < |ls| ==> ls[i].Valid() && ls[i].Contents() == []
      ensures del.Valid() && del.Contents() == []
    {
      ls := [];
      while |ls| < UC_HOOK_MAX
        invariant |ls| <= UC_HOOK_MAX && fresh(ls)
        invariant forall i, j :: 0 <= i < j < |ls| ==> ls[i] != ls[j]
        invariant forall i :: 0 <= i < |ls| ==> ls[i].Valid() && ls[i].Contents() == []
      {
        var l := new LinkedList.List();
        ls := ls + [l];
      }
      del := new LinkedList.List();
    }

    /** list_insert or list_append on one of the lists. */
    method PutOn(i: nat, h: nat, first: bool)
      requires Stored() && i < UC_HOOK_MAX
      modifies this`hooks, lists
      ensures Stored() && hooks == old(hooks)[i := Linked(old(hooks[i]), h, first)]
    {
      if first {
        lists[i].Insert(h);
      } else {
        lists[i].Append(h);
      }
      hooks := hooks[i := Linked(hooks[i], h, first)];
    }

    /** list_remove on one of the lists. */
    method TakeFrom(i: nat, h: nat) returns (found: bool)
      requires Stored() && i < UC_HOOK_MAX
      modifies this`hooks, lists
      ensures Stored() && hooks == old(hooks)[i := RemoveFirst(old(hooks[i]), h)]
      ensures found <==> h in old(hooks[i])
    {
      found := lists[i].Remove(h);
      hooks := hooks[i := RemoveFirst(hooks[i], h)];
    }

    /** list_exists on one of the lists. */
    method IsOn(i: nat, h: nat) returns (r: bool)
      requires Stored() && i < UC_HOOK_MAX
      ensures |hooks| == UC_HOOK_MAX && (r <==> h in hooks[i])
    {
      r := lists[i].Exists(h);
    }

    /** list_clear on one of the lists: the data it hands to its destructor. */
    method Empty(i: nat) returns (data: seq<nat>)
      requires Stored() && i < UC_HOOK_MAX
      modifies this`hooks, lists
      ensures Stored() && hooks == old(hooks)[i := []] && data == old(hooks[i])
    {
      data := lists[i].Clear();
      hooks := hooks[i := []];
    }

    /** hook_insert and hook_append on one of the lists, for a hook just made. */
    method Link(i: nat, h: nat)
      requires Stored() && i < |hooks| && h in heap && h !in hooks[i]
      modifies this`heap, this`hooks, lists
      ensures Stored() && hooks == old(hooks)[i := Linked(old(hooks[i]), h, hookInsert)]
      ensures heap == old(heap)[h := old(heap[h]).(refs := old(heap[h].refs) + 1)]
      ensures forall x :: Occurrences(hooks, x) == old(Occurrences(hooks, x)) + if x == h then 1 else 0
    {
      hide Occurrences, Stored;
      assert UC_HOOK_MAX == |hooks| by { Sizes(); }
      PutOn(i, h, hookInsert);
      heap := heap[h := heap[h].(refs := heap[h].refs + 1)];
      forall x ensures Occurrences(hooks, x) == old(Occurrences(hooks, x)) + if x == h then 1 else 0 {
        OccurrencesUpdate(old(hooks), i, hooks[i], x);
      }
    }

    lemma Sizes()
      requires Stored()
      ensures |lists| == |hooks| == UC_HOOK_MAX
      ensures deletions !in lists && deletions.Valid() && deletions.Contents() == toDel
      ensures forall i :: 0 <= i < |lists| ==> lists[i].Valid() && lists[i].Contents() == hooks[i]
    {}

    /** The loop of uc_hook_add over the bits of the type. */
    method LinkAll(kind: int, h: nat)
      requires Bit(kind, UC_HOOK_INSN_IDX) == Bit(kind, UC_HOOK_TCG_OPCODE_IDX) == false && kind < INT_RANGE
      requires Stored() && |hooks| == UC_HOOK_MAX && h in heap && heap[h].refs == 0 && Occurrences(hooks, h) == 0
      modifies this`heap, this`hooks, lists
      ensures Stored() && AddedTo(old(hooks), hooks, h, hookInsert, kind) && OthersSame(old(hooks), hooks, h)
      ensures heap == old(heap)[h := old(heap[h]).(refs := Occurrences(hooks, h))]
    {
      hide Occurrences, Shift, Stored;
      OccurrencesNone(hooks, h);
      if kind > 0 {
        var t, i := kind, 0;
        ShiftStart(kind);
        while t > 0
          invariant 0 <= t && t == Shift(kind, i) && |hooks| == UC_HOOK_MAX && h in heap
          invariant forall j: nat :: j < UC_HOOK_MAX ==>
                      hooks[j] == if j < i && Bit(kind, j) then Linked(old(hooks)[j], h, hookInsert) else old(hooks)[j]
          invariant Stored() && OthersSame(old(hooks), hooks, h)
          invariant heap == old(heap)[h := old(heap[h]).(refs := Occurrences(hooks, h))]
          decreases t
        {
          if t % 2 == 1 {
            if i < UC_HOOK_MAX {
              Link(i, h);
            }
          }
          ShiftStep(kind, i);
          t := t / 2;
          i := i + 1;
        }
        forall j: nat | i <= j ensures !Bit(kind, j) { ShiftZero(kind, i, j); }
      }
    }

    /** uc_hook_add; `accepted` is the verdict on the instruction or opcode, if there is one. */
    method UcHookAdd(kind: int, accepted: bool) returns (err: Error, handle: nat)
      requires Valid() && -INT_RANGE <= kind < INT_RANGE
      modifies this`heap, this`hooks, lists
      ensures Valid() && handle > 0 && handle !in old(heap)
      ensures err == HOOK <==> (Bit(kind, UC_HOOK_INSN_IDX) || Bit(kind, UC_HOOK_TCG_OPCODE_IDX)) && !accepted
      ensures err in {OK, HOOK}
      ensures err == HOOK ==> heap == old(heap) && hooks == old(hooks)
      ensures err == OK ==> AddedTo(old(hooks), hooks, handle, hookInsert, kind)
      ensures err == OK ==> forall i: nat :: i < UC_HOOK_MAX && Wanted(kind, i) ==>
                hooks[i] == if hookInsert then [handle] + old(hooks)[i] else old(hooks)[i] + [handle]
      ensures err == OK ==> heap == if Occurrences(hooks, handle) == 0 then old(heap)
                                    else old(heap)[handle := Hook(kind, Occurrences(hooks, handle), false)]
    {
      hide Occurrences, Bit, Counted, Once, Waiting, Shift, Stored;
      handle := FreshAddress(heap);
      var h := handle;
      Unknown(heap, hooks, toDel, h);
      heap := heap[h := Hook(kind, 0, false)];
      if Bit(kind, UC_HOOK_INSN_IDX) || Bit(kind, UC_HOOK_TCG_OPCODE_IDX) {
        if !accepted {
          heap := heap - {h};
          assert heap == old(heap);
          return HOOK, h;
        }
        if Bit(kind, UC_HOOK_INSN_IDX) {
          Link(UC_HOOK_INSN_IDX, h);
        } else {
          Link(UC_HOOK_TCG_OPCODE_IDX, h);
        }
        assert heap == old(heap)[h := Hook(kind, Occurrences(hooks, h), false)];
        Admitted(old(heap), old(hooks), hooks, toDel, h, hookInsert, kind);
        return OK, h;
      }
      LinkAll(kind, h);
      assert heap == old(heap)[h := Hook(kind, Occurrences(hooks, h), false)];
      Admitted(old(heap), old(hooks), hooks, toDel, h, hookInsert, kind);
      if heap[h].refs == 0 {
        heap := heap - {h};
        assert heap == old(heap);
      }
      err := OK;
    }

    /** list_append on the hooks to delete. */
    method Note(h: nat)
      requires Stored()
      modifies this`toDel, deletions
      ensures Stored() && toDel == old(toDel) + [h]
    {
      deletions.Append(h);
      toDel := toDel + [h];
    }

    /** uc_hook_del: wherever the hook is on a list, it is marked and noted for deletion. */
    method UcHookDel(hh: nat)
      requires Valid()
      modifies this`heap, this`toDel, deletions
      ensures Valid()
      ensures toDel == old(toDel) + Repeated(hh, Occurrences(hooks, hh))
      ensures heap == if Occurrences(hooks, hh) == 0 then old(heap)
                      else old(heap)[hh := Hook(old(heap)[hh].kind, old(heap)[hh].refs + Occurrences(hooks, hh), true)]
    {
      hide Occurrences, Repeated, Waiting, Stored, Counted, Once;
      var i := 0;
      ghost var n := 0;
      RepeatedMore(old(toDel), hh, 0);
      Prefix(hooks, 0, hh);
      while i < UC_HOOK_MAX
        invariant i <= UC_HOOK_MAX && n == Occurrences(hooks[..i], hh) && Stored()
        invariant toDel == old(toDel) + Repeated(hh, n)
        invariant n == 0 ==> heap == old(heap)
        invariant n > 0 ==> hh in old(heap) && heap == old(heap)[hh := Hook(old(heap)[hh].kind, old(heap)[hh].refs + n, true)]
      {
        Prefix(hooks, i, hh);
        var found := IsOn(i, hh);
        if found {
          ListedIn(old(heap), hooks, old(toDel), i, hh);
          RepeatedMore(old(toDel), hh, n);
          heap := heap[hh := heap[hh].(toDelete := true)];
          Note(hh);
          heap := heap[hh := heap[hh].(refs := heap[hh].refs + 1)];
          n := n + 1;
        }
        i := i + 1;
      }
      assert hooks[..i] == hooks;
      NotedOnce(old(heap), hooks, old(toDel), hh, n);
    }

    /** hook_delete: the last reference frees the hook. */
    method HookDelete(h: nat)
      requires h in heap && heap[h].refs > 0
      modifies this`heap
      ensures heap == if old(heap[h].refs) == 1 then old(heap) - {h}
                      else old(heap)[h := old(heap[h]).(refs := old(heap[h].refs) - 1)]
    {
      heap := heap[h := heap[h].(refs := heap[h].refs - 1)];
      if heap[h].refs == 0 {
        heap := heap - {h};
      }
    }

    /** The inner loop of clear_deleted_hooks: the hook goes off the first list that has it. */
    method TakeOff(h: nat, ghost deleted: seq<nat>)
      requires Stored() && |hooks| == UC_HOOK_MAX && Once(hooks) && h in deleted && h in heap && heap[h].refs > Occurrences(hooks, h)
      modifies this`heap, this`hooks, lists
      ensures Stored() && |hooks| == UC_HOOK_MAX && Once(hooks)
      ensures forall x :: Occurrences(hooks, x) == old(Occurrences(hooks, x)) - if x == h && old(Occurrences(hooks, h)) > 0 then 1 else 0
      ensures heap == if old(Occurrences(hooks, h)) == 0 then old(heap)
                      else old(heap)[h := old(heap[h]).(refs := old(heap[h].refs) - 1)]
      ensures forall i :: 0 <= i < UC_HOOK_MAX ==> Live(hooks[i], deleted) == Live(old(hooks[i]), deleted)
    {
      hide Occurrences, Live, RemoveFirst, Stored;
      var i := 0;
      OccurrencesNone(hooks, h);
      while i < UC_HOOK_MAX
        invariant i <= UC_HOOK_MAX && hooks == old(hooks) && heap == old(heap) && Stored()
        invariant forall j :: 0 <= j < i ==> h !in hooks[j]
      {
        ghost var before := hooks;
        OccurrencesSome(hooks, i, h);
        LiveRemove(hooks[i], h, deleted);
        var found := TakeFrom(i, h);
        if found {
          forall x ensures Occurrences(hooks, x) == Occurrences(before, x) - if x == h then 1 else 0 {
            RemoveFirstCount(before[i], h, x);
            OccurrencesUpdate(before, i, hooks[i], x);
            assert Count(before[i], x) <= 1;
          }
          OnceRemoved(before, i, h);
          HookDelete(h);
          break;
        }
        assert hooks == before;
        i := i + 1;
      }
    }

    /** The first loop of clear_deleted_hooks: no list holds a deleted hook any more. The
        assert is the source's. */
    method TakeAllOff()
      requires Valid()
      modifies this`heap, this`hooks, lists
      ensures Stored() && |hooks| == UC_HOOK_MAX && Once(hooks) && Counted(heap, hooks, toDel)
      ensures forall i :: 0 <= i < UC_HOOK_MAX ==> hooks[i] == Live(old(hooks[i]), toDel)
      ensures heap.Keys == old(heap).Keys && forall x :: x in heap && x !in toDel ==> heap[x] == old(heap[x])
      ensures forall x :: x in toDel ==> Occurrences(hooks, x) == 0
    {
      hide Occurrences, Live, Count, Once, Stored, NotedAt;
      ghost var k := 0;
      assert toDel[0..] == toDel;
      NthNoted(0);
      var cur := deletions.head;
      while cur != NULL
        invariant k <= |toDel| && |hooks| == UC_HOOK_MAX && Once(hooks) && Counted(heap, hooks, toDel)
        invariant Stored() && deletions !in lists && NotedAt(cur, k)
        invariant heap.Keys == old(heap).Keys && forall x :: x in heap && x !in toDel ==> heap[x] == old(heap[x])
        invariant forall x :: x in heap ==> heap[x].toDelete == old(heap[x].toDelete)
        invariant forall i :: 0 <= i < UC_HOOK_MAX ==> Live(hooks[i], toDel) == Live(old(hooks[i]), toDel)
        invariant forall x :: x in toDel ==> Occurrences(hooks, x) <= Count(toDel[k..], x)
        decreases |toDel| - k
      {
        var hook, next := Noted(cur, k);
        CountRest(toDel, k);
        Present(toDel, hook);
        assert heap[hook].toDelete;
        TakeOff(hook, toDel);
        cur := next;
        k := k + 1;
      }
      NthNoted(k);
      forall x | x in toDel ensures Occurrences(hooks, x) == 0 { NoneLeft(toDel, k, x); }
      AllLive(hooks, toDel);
    }

    /** `cur` is the item with the k-th hook to delete, or NULL behind the last one. */
    ghost predicate NotedAt(cur: nat, k: nat)
      reads deletions
    {
      cur == LinkedList.NthItem(deletions.path, k)
    }

    /** One item of the hooks to delete is read. */
    method Noted(cur: nat, ghost k: nat) returns (hook: nat, next: nat)
      requires Stored() && cur != NULL && NotedAt(cur, k)
      ensures k < |toDel| && hook == toDel[k] && NotedAt(next, k + 1)
    {
      LinkedList.Following(deletions.items, deletions.head, deletions.path, k);
      hook, next := deletions.items[cur].data, deletions.items[cur].next;
    }

    lemma NthNoted(k: nat)
      requires Stored()
      ensures deletions !in lists && NotedAt(deletions.head, 0)
      ensures NotedAt(NULL, k) ==> k >= |toDel|
    {
      LinkedList.Following(deletions.items, deletions.head, deletions.path, k);
    }

    /** list_clear on the hooks to delete: the last mention of each frees it. */
    method ClearList()
      requires Stored() && Counted(heap, hooks, toDel) && forall x :: x in toDel ==> Occurrences(hooks, x) == 0
      modifies this`heap, this`toDel, deletions
      ensures Stored() && toDel == [] && heap == map h | h in old(heap) && h !in old(toDel) :: old(heap)[h]
    {
      hide Occurrences, Count, Stored;
      ghost var del := toDel;
      var data := Forget();
      var cur := 0;
      assert data[0..] == data;
      forall x | x in del ensures x in heap && Count(del, x) > 0 { Present(del, x); }
      while cur < |data|
        modifies this`heap
        invariant cur <= |data|
        invariant forall x :: x in heap <==> x in old(heap) && (x !in del || Count(del[cur..], x) > 0)
        invariant forall x :: x in heap && x !in del ==> heap[x] == old(heap)[x]
        invariant forall x :: x in heap && x in del ==> heap[x].refs == Count(del[cur..], x)
      {
        CountRest(data, cur);
        HookDelete(data[cur]);
        cur := cur + 1;
      }
      forall x ensures Count(del[cur..], x) == 0 { NoneLeft(del, cur, x); }
    }

    /** The items of the hooks to delete are freed; their data goes to the destructor. */
    method Forget() returns (data: seq<nat>)
      requires Stored()
      modifies this`toDel, deletions
      ensures Stored() && toDel == [] && data == old(toDel)
    {
      data := deletions.Clear();
      toDel := [];
    }

    /** clear_deleted_hooks: exactly the deleted hooks are off the lists and freed, each once. */
    method ClearDeletedHooks()
      requires Valid()
      modifies this`heap, this`hooks, this`toDel, lists, deletions
      ensures Valid() && toDel == []
      ensures forall i :: 0 <= i < UC_HOOK_MAX ==> hooks[i] == Live(old(hooks[i]), old(toDel))
      ensures heap == map h | h in old(heap) && h !in old(toDel) :: old(heap)[h]
    {
      hide Occurrences, Live, Count, Stored;
      TakeAllOff();
      ghost var before := heap;
      ClearList();
      assert heap == map h | h in old(heap) && h !in old(toDel) :: old(heap)[h];
      Cleared(before, hooks, old(toDel), heap);
    }

    /** The end of uc_close: nothing is left, so every hook was freed exactly once. */
    method Close()
      requires Valid()
      modifies this`heap, this`hooks, this`toDel, lists, deletions
      ensures heap == map[] && |hooks| == UC_HOOK_MAX && forall i :: 0 <= i < UC_HOOK_MAX ==> hooks[i] == []
    {
      hide Occurrences, Live, Count, Stored;
      ClearDeletedHooks();
      var i := 0;
      while i < UC_HOOK_MAX
        invariant i <= UC_HOOK_MAX && |hooks| == UC_HOOK_MAX && toDel == [] && Stored()
        invariant Counted(heap, hooks, toDel) && forall h :: h in heap ==> heap[h].refs > 0
        invariant forall j :: 0 <= j < i ==> hooks[j] == []
      {
        DropList(i);
        i := i + 1;
      }
      forall h ensures h !in heap {
        OccurrencesNone(hooks, h);
        NoneLeft([], 0, h);
      }
    }

    /** list_clear on one list, taking its references away. */
    method DropList(i: nat)
      requires Stored() && i < |hooks| && Counted(heap, hooks, toDel) && forall h :: h in heap ==> heap[h].refs > 0
      modifies this`heap, this`hooks, lists
      ensures Stored() && Counted(heap, hooks, toDel) && forall h :: h in heap ==> heap[h].refs > 0
      ensures hooks == old(hooks)[i := []]
    {
      hide Occurrences, Count, Stored, Counted;
      ghost var l0 := hooks;
      Sizes();
      var data := Empty(i);
      assert data[0..] == data && l0[i := data] == l0;
      var cur := 0;
      while cur < |data|
        modifies this`heap
        invariant cur <= |data|
        invariant Counted(heap, l0[i := data[cur..]], toDel) && forall h :: h in heap ==> heap[h].refs > 0
      {
        OneLess(heap, l0[i := data[cur..]], toDel, i, data[cur..], data[cur + 1..]);
        assert l0[i := data[cur..]][i := data[cur + 1..]] == l0[i := data[cur + 1..]];
        HookDelete(data[cur]);
        cur := cur + 1;
      }
      assert data[cur..] == [];
    }

    /** Between two calls of the API. */
    ghost predicate Idle()
      reads this, lists, deletions
    {
      Valid() && !hookInsert
    }

    /** The start of uc_emu_start: the hook that counts instructions comes or goes. */
    method SetCountHook(count: nat)
      requires Idle()
      modifies this`heap, this`hooks, this`toDel, this`countHook, this`hookInsert, lists, deletions
      ensures Idle() && Persists(old(heap), old(hooks), heap, hooks)
      ensures Spares(old(heap), old(hooks), old(countHook), heap, hooks, countHook, {})
      ensures Made([Begins(count > 0)], old(heap), old(hooks), old(countHook), heap, hooks, countHook)
      ensures count == 0 ==> countHook == 0 && hooks == old(hooks)
      ensures count == 0 && old(countHook) != 0 ==>
                toDel == old(toDel) + Repeated(old(countHook), Occurrences(old(hooks), old(countHook)))
      ensures count == 0 && old(countHook) != 0 && old(countHook in heap && Occurrences(hooks, countHook) > 0) ==>
                old(countHook) in heap && heap[old(countHook)].toDelete
      ensures (count > 0 <==> old(countHook) != 0) ==>
                countHook == old(countHook) && hooks == old(hooks) && heap == old(heap) && toDel == old(toDel)
      ensures count > 0 ==> toDel == old(toDel)
      ensures count > 0 && old(countHook) == 0 ==>
                countHook != 0 && hooks == old(hooks)[UC_HOOK_CODE_IDX := [countHook] + old(hooks)[UC_HOOK_CODE_IDX]]
    {
      hide Occurrences, Count, Wanted, Counted, Once, Waiting, Stored;
      Positive(heap, hooks, toDel);
      if countHook in heap && Occurrences(hooks, countHook) == 0 { MarkedBy(heap, hooks, toDel, countHook); }
      if count <= 0 && countHook != 0 {
        UcHookDel(countHook);
        countHook := 0;
      }
      if count > 0 && countHook == 0 {
        hookInsert := true;
        CodeHook();
        var err, handle := UcHookAdd(UC_HOOK_CODE, true);
        countHook := handle;
        hookInsert := false;
        assert err == OK;
        assert hooks == old(hooks)[UC_HOOK_CODE_IDX := [countHook] + old(hooks)[UC_HOOK_CODE_IDX]];
        AddSpares(old(heap), old(hooks), 0, heap, hooks, handle, true, UC_HOOK_CODE);
        AddGrown(old(heap), old(hooks), heap, hooks, handle, true, UC_HOOK_CODE, false);
      } else {
        GrownSame(count > 0, old(countHook) != 0, old(heap), heap, hooks);
      }
      BeginMade(count > 0, old(heap), old(hooks), old(countHook), heap, hooks, countHook);
    }

    /** uc_emu_start; while the machine runs, the callbacks act on the engine. */
    method EmuStart(until: nat, count: nat, callbacks: seq<Action>) returns (err: Error)
      requires Idle() && WellFormed(callbacks)
      modifies this, lists, deletions
      ensures Idle() && nestedLevel == old(nestedLevel)
      ensures err == if nestedLevel >= UC_MAX_NESTED_LEVEL then RESOURCE else OK
      ensures err == RESOURCE ==> heap == old(heap) && hooks == old(hooks) && toDel == old(toDel)
      ensures forall k :: 0 <= k < nestedLevel ==> exits[k] == old(exits[k])
      ensures err == OK ==> exits[nestedLevel] == if old(useExits) then old(exits[nestedLevel]) else until
      ensures nestedLevel > 0 ==> Persists(old(heap), old(hooks), heap, hooks)
      ensures nestedLevel == 0 ==> toDel == [] && forall h :: h in heap ==> !heap[h].toDelete
      ensures var calls := FlatOne(Start(until, count, callbacks), nestedLevel);
              && Done(calls, nestedLevel, old(heap), old(hooks), old(countHook), old(useExits), heap, hooks, countHook, useExits)
              && (nestedLevel == 0 ==> Swept(calls, old(heap), old(hooks), old(countHook), heap, hooks, countHook))
      decreases callbacks, 1
    {
      hide Occurrences, Count, Persists, Spares, Counted, Once, Waiting, Named, Stored, Repeated, Made, Swept, Done, Flat, FlatOne, WellFormed;
      hide Explicit, Counting, Wanted, Bit, Live;
      FlatStart(until, count, callbacks, nestedLevel);
      if nestedLevel >= UC_MAX_NESTED_LEVEL {
        DoneNone(nestedLevel, heap, hooks, countHook, useExits);
        PersistsSame(heap, hooks);
        return RESOURCE;
      }
      nestedLevel := nestedLevel + 1;
      SetCountHook(count);
      ghost var heap1, hooks1, count1 := heap, hooks, countHook;
      BeginDone(count > 0, nestedLevel, old(heap), old(hooks), old(countHook), useExits, heap, hooks, countHook);
      if !useExits {
        exits := exits[nestedLevel - 1 := until];
      }
      Run(callbacks);
      DoneTrans([Begins(count > 0)], Flat(callbacks, nestedLevel), nestedLevel, old(heap), old(hooks), old(countHook), old(useExits),
                heap1, hooks1, count1, old(useExits), heap, hooks, countHook, useExits);
      Leave([Begins(count > 0)] + Flat(callbacks, nestedLevel), old(heap), old(hooks), old(countHook), old(useExits));
      err := OK;
    }

    /** The end of uc_emu_start: a level less, and after the last one the deleted hooks go. */
    method Leave(ghost calls: seq<Call>, ghost h0: Heap, ghost l0: seq<seq<nat>>, ghost c0: nat, ghost x0: bool)
      requires Idle() && nestedLevel > 0 && Done(calls, nestedLevel, h0, l0, c0, x0, heap, hooks, countHook, useExits)
      modifies this`heap, this`hooks, this`toDel, this`nestedLevel, lists, deletions
      ensures Idle() && nestedLevel == old(nestedLevel) - 1
      ensures nestedLevel > 0 ==> Persists(h0, l0, heap, hooks)
      ensures nestedLevel == 0 ==> toDel == [] && forall h :: h in heap ==> !heap[h].toDelete
      ensures Done(calls, nestedLevel, h0, l0, c0, x0, heap, hooks, countHook, useExits)
      ensures nestedLevel == 0 ==> Swept(calls, h0, l0, c0, heap, hooks, countHook)
    {
      hide Occurrences, Count, Persists, Spares, Counted, Once, Waiting, Named, Stored, Made, Swept, Done, Live;
      nestedLevel := nestedLevel - 1;
      if nestedLevel == 0 {
        ClearDeletedHooks();
        NoneMarked(heap, hooks);
        Sweeps(calls, h0, l0, c0, x0, old(heap), old(hooks), old(toDel), heap, hooks, countHook, useExits);
      } else {
        DoneLevel(calls, nestedLevel, h0, l0, c0, x0, heap, hooks, countHook, useExits);
        DonePersists(calls, nestedLevel, h0, l0, c0, x0, heap, hooks, countHook, useExits);
      }
    }

    /** Any sequence of calls, with emulation runs nested in them to any depth. */
    method Run(actions: seq<Action>)
      requires Idle() && WellFormed(actions)
      modifies this, lists, deletions
      ensures Idle() && nestedLevel == old(nestedLevel)
      ensures forall k :: 0 <= k < nestedLevel ==> exits[k] == old(exits[k])
      ensures nestedLevel > 0 ==> Persists(old(heap), old(hooks), heap, hooks)
      ensures Done(Flat(actions, nestedLevel), nestedLevel, old(heap), old(hooks), old(countHook), old(useExits),
                heap, hooks, countHook, useExits)
      decreases actions, 0
    {
      hide Occurrences, Count, Persists, Spares, Counted, Once, Waiting, Named, Stored, Repeated, Made, Swept, Done, Flat, FlatOne;
      ghost var calls: seq<Call> := [];
      DoneNone(nestedLevel, heap, hooks, countHook, useExits);
      FlatWhole(actions, nestedLevel);
      for i := 0 to |actions|
        invariant Idle() && nestedLevel == old(nestedLevel)
        invariant forall k :: 0 <= k < nestedLevel ==> exits[k] == old(exits[k])
        invariant Flat(actions, nestedLevel) == calls + Flat(actions[i..], nestedLevel)
        invariant Done(calls, nestedLevel, old(heap), old(hooks), old(countHook), old(useExits), heap, hooks, countHook, useExits)
      {
        ghost var heap1, hooks1, count1, use1 := heap, hooks, countHook, useExits;
        ghost var more := FlatOne(actions[i], nestedLevel);
        FlatNext(actions, nestedLevel, i);
        Act(actions[i]);
        DoneTrans(calls, more, nestedLevel, old(heap), old(hooks), old(countHook), old(useExits), heap1, hooks1, count1, use1,
                  heap, hooks, countHook, useExits);
        calls := calls + more;
      }
      assert actions[|actions|..] == [] && Flat(actions, nestedLevel) == calls;
      DonePersists(calls, nestedLevel, old(heap), old(hooks), old(countHook), old(useExits), heap, hooks, countHook, useExits);
    }

    /** One call. */
    method Act(a: Action)
      requires Idle() && WellFormed([a])
      modifies this, lists, deletions
      ensures Idle() && nestedLevel == old(nestedLevel)
      ensures forall k :: 0 <= k < nestedLevel ==> exits[k] == old(exits[k])
      ensures Done(FlatOne(a, nestedLevel), nestedLevel, old(heap), old(hooks), old(countHook), old(useExits),
                heap, hooks, countHook, useExits)
      decreases a
    {
      hide Occurrences, Count, Counted, Once, Waiting, Named, Stored, Repeated, Made, Swept, Done, Flat, Bit, Wanted;
      assert WellFormed([a]) && [a][0] == a;
      match a {
        case Add(kind, accepted) =>
          var err, handle := UcHookAdd(kind, accepted);
          if err == OK {
            AddDone(nestedLevel, old(heap), old(hooks), countHook, useExits, heap, hooks, handle, kind);
          } else {
            DoneNone(nestedLevel, heap, hooks, countHook, useExits);
          }
        case Delete(handle) =>
          if handle in heap && Occurrences(hooks, handle) == 0 { MarkedBy(heap, hooks, toDel, handle); }
          UcHookDel(handle);
          DelDone(nestedLevel, old(heap), heap, hooks, countHook, useExits, handle);
        case UseExits(on) =>
          useExits := on;
          SetDone(nestedLevel, heap, hooks, countHook, old(useExits), on);
        case Start(until, count, callbacks) =>
          var err := EmuStart(until, count, callbacks);
      }
    }
  }

  /** Type words are 32-bit integers. */
  predicate WellFormed(actions: seq<Action>) {
    forall i :: 0 <= i < |actions| ==>
      match actions[i]
      case Add(kind, _) => -INT_RANGE <= kind < INT_RANGE
      case Start(_, _, callbacks) => WellFormed(callbacks)
      case _ => true
  }

  /** No hook is freed and none leaves a list. */
  ghost predicate Persists(h0: Heap, l0: seq<seq<nat>>, h1: Heap, l1: seq<seq<nat>>) {
    && (forall h :: h in h0 ==> h in h1 && h1[h].kind == h0[h].kind && (h0[h].toDelete ==> h1[h].toDelete))
    && |l0| == |l1|
    && forall i, h :: 0 <= i < |l0| && h in l0[i] ==> h in l1[i]
  }

  lemma PersistsSame(heap: Heap, lists: seq<seq<nat>>)
    ensures Persists(heap, lists, heap, lists)
  {}

  lemma PersistsTrans(h0: Heap, l0: seq<seq<nat>>, h1: Heap, l1: seq<seq<nat>>, h2: Heap, l2: seq<seq<nat>>)
    requires Persists(h0, l0, h1, l1) && Persists(h1, l1, h2, l2)
    ensures Persists(h0, l0, h2, l2)
  {}

  predicate Refused(kind: int, accepted: bool) {
    (Bit(kind, UC_HOOK_INSN_IDX) || Bit(kind, UC_HOOK_TCG_OPCODE_IDX)) && !accepted
  }

  function Flat(actions: seq<Action>, level: nat): seq<Call> {
    if actions == [] then [] else FlatOne(actions[0], level) + Flat(actions[1..], level)
  }

  function FlatOne(a: Action, level: nat): seq<Call> {
    match a
    case Add(kind, accepted) => if Refused(kind, accepted) then [] else [Adds(kind)]
    case Delete(handle) => [Deletes(handle)]
    case UseExits(on) => [Sets(on)]
    case Start(_, count, callbacks) =>
      if level >= UC_MAX_NESTED_LEVEL then [] else [Begins(count > 0)] + Flat(callbacks, level + 1)
  }

  lemma FlatStart(until: nat, count: nat, callbacks: seq<Action>, level: nat)
    ensures FlatOne(Start(until, count, callbacks), level) ==
              if level >= UC_MAX_NESTED_LEVEL then [] else [Begins(count > 0)] + Flat(callbacks, level + 1)
  {}

  lemma FlatWhole(actions: seq<Action>, level: nat)
    ensures Flat(actions[0..], level) == Flat(actions, level) && Flat([], level) == []
  {
    assert actions[0..] == actions;
  }

  lemma FlatNext(actions: seq<Action>, level: nat, i: nat)
    requires i < |actions|
    ensures Flat(actions[i..], level) == FlatOne(actions[i], level) + Flat(actions[i + 1..], level)
  {
    assert actions[i..][1..] == actions[i + 1..];
  }

  /** The handles some deletion names. */
  function Named(calls: seq<Call>): set<nat> {
    set c | c in calls && c.Deletes? :: c.handle
  }

  /** Whether the exits are set explicitly in the end: the last call counts. */
  function Explicit(calls: seq<Call>, on: bool): bool {
    if calls == [] then on else
    var last := calls[|calls| - 1];
    if last.Sets? then last.on else Explicit(calls[..|calls| - 1], on)
  }

  /** Whether instructions are counted in the end: the last run to begin counts. */
  function Counting(calls: seq<Call>, on: bool): bool {
    if calls == [] then on else
    var last := calls[|calls| - 1];
    if last.Begins? then last.counted else Counting(calls[..|calls| - 1], on)
  }

  /** How many counting hooks are made: one whenever the counting goes on. */
  function Counters(calls: seq<Call>, on: bool): nat {
    if calls == [] then 0 else
    var before := calls[..|calls| - 1];
    Counters(before, on) + if calls[|calls| - 1] == Begins(true) && !Counting(before, on) then 1 else 0
  }

  /** The types of the hooks that are added to list `i`, in order. */
  ghost function KindsOn(calls: seq<Call>, i: nat): seq<int> {
    if calls == [] then [] else
    var last := calls[|calls| - 1];
    KindsOn(calls[..|calls| - 1], i) + if last.Adds? && Wanted(last.kind, i) then [last.kind] else []
  }

  lemma Single(c: Call)
    ensures Named([c]) == if c.Deletes? then {c.handle} else {}
    ensures forall on :: Explicit([c], on) == if c.Sets? then c.on else on
    ensures forall on :: Counting([c], on) == if c.Begins? then c.counted else on
    ensures forall on :: Counters([c], on) == if c == Begins(true) && !on then 1 else 0
    ensures forall i :: KindsOn([c], i) == if c.Adds? && Wanted(c.kind, i) then [c.kind] else []
  {
    hide Wanted;
    assert [c][..0] == [];
  }

  lemma {:induction false} Concat(a: seq<Call>, b: seq<Call>)
    ensures Named(a + b) == Named(a) + Named(b)
    ensures forall on :: Explicit(a + b, on) == Explicit(b, Explicit(a, on))
    ensures forall on :: Counting(a + b, on) == Counting(b, Counting(a, on))
    ensures forall on :: Counters(a + b, on) == Counters(a, on) + Counters(b, Counting(a, on))
    ensures forall i :: KindsOn(a + b, i) == KindsOn(a, i) + KindsOn(b, i)
  {
    if b == [] {
      assert a + b == a;
    } else {
      var b' := b[..|b| - 1];
      Concat(a, b');
      assert (a + b)[..|a + b| - 1] == a + b';
    }
  }

  /** A list keeps what it has; `front` counting hooks come in front and hooks of these types
      behind, all of them new. */
  ghost predicate GrownList(h0: Heap, s0: seq<nat>, h1: Heap, s1: seq<nat>, front: nat, kinds: seq<int>) {
    && |s1| == front + |s0| + |kinds| && s1[front..front + |s0|] == s0
    && (forall j :: 0 <= j < front ==> NewHook(h0, h1, s1[j], UC_HOOK_CODE))
    && (forall j :: 0 <= j < |kinds| ==> NewHook(h0, h1, s1[front + |s0| + j], kinds[j]))
  }

  ghost predicate NewHook(h0: Heap, h1: Heap, h: nat, kind: int) {
    h !in h0 && h in h1 && h1[h].kind == kind
  }

  ghost predicate Grown(calls: seq<Call>, on: bool, h0: Heap, l0: seq<seq<nat>>, h1: Heap, l1: seq<seq<nat>>) {
    && |l0| == |l1| == UC_HOOK_MAX
    && forall i :: 0 <= i < UC_HOOK_MAX ==>
         GrownList(h0, l0[i], h1, l1[i], if i == UC_HOOK_CODE_IDX then Counters(calls, on) else 0, KindsOn(calls, i))
  }

  /** What a sequence of calls makes of the hooks while some level is active: the lists grow by
      exactly the hooks added, the hooks named and the counting hook that is stopped are marked,
      and the counting hook is there just if it has to. */
  ghost predicate Made(calls: seq<Call>, h0: Heap, l0: seq<seq<nat>>, c0: nat, h1: Heap, l1: seq<seq<nat>>, c1: nat) {
    && Grown(calls, c0 != 0, h0, l0, h1, l1)
    && (forall h :: h in h0 && (h in Named(calls) || (h == c0 && c0 != 0 && Begins(false) in calls)) ==>
          h in h1 && h1[h].toDelete)
    && (c1 != 0 <==> Counting(calls, c0 != 0))
    && (c0 != 0 && Begins(false) !in calls ==> c1 == c0)
  }

  /** The same for an outermost run, which ends with all marked hooks gone. */
  ghost predicate Swept(calls: seq<Call>, h0: Heap, l0: seq<seq<nat>>, c0: nat, h1: Heap, l1: seq<seq<nat>>, c1: nat) {
    exists h: Heap, l: seq<seq<nat>>, del: seq<nat> ::
      Made(calls, h0, l0, c0, h, l, c1) && Cut(h0, h, l, del, h1, l1)
  }

  ghost predicate Cut(h0: Heap, h: Heap, l: seq<seq<nat>>, del: seq<nat>, h1: Heap, l1: seq<seq<nat>>) {
    && (forall x :: x in h ==> (x in del <==> h[x].toDelete))
    && (forall x :: x in h0 ==> x in h && (h0[x].toDelete ==> h[x].toDelete))
    && h1 == (map x | x in h && x !in del :: h[x])
    && |l| == |l1| && forall i :: 0 <= i < |l| ==> l1[i] == Live(l[i], del)
  }

  /** All that a sequence of calls does: which hooks it spares, how the exits are set and whether
      instructions are counted; and while some level is active, what becomes of the hooks. */
  ghost predicate Done(calls: seq<Call>, level: nat, h0: Heap, l0: seq<seq<nat>>, c0: nat, x0: bool,
                       h1: Heap, l1: seq<seq<nat>>, c1: nat, x1: bool) {
    && Spares(h0, l0, c0, h1, l1, c1, Named(calls))
    && x1 == Explicit(calls, x0) && (c1 != 0 <==> Counting(calls, c0 != 0))
    && (level > 0 ==> Persists(h0, l0, h1, l1) && Made(calls, h0, l0, c0, h1, l1, c1))
  }

  lemma DoneNone(level: nat, heap: Heap, lists: seq<seq<nat>>, c: nat, x: bool)
    requires |lists| == UC_HOOK_MAX
    ensures Done([], level, heap, lists, c, x, heap, lists, c, x)
  {
    MadeNone(heap, lists, c);
    PersistsSame(heap, lists);
    SparesSame(heap, lists, c, Named([]));
    hide Made, Persists, Spares;
  }

  lemma DoneTrans(a: seq<Call>, b: seq<Call>, level: nat, h0: Heap, l0: seq<seq<nat>>, c0: nat, x0: bool,
                  h1: Heap, l1: seq<seq<nat>>, c1: nat, x1: bool, h2: Heap, l2: seq<seq<nat>>, c2: nat, x2: bool)
    requires Done(a, level, h0, l0, c0, x0, h1, l1, c1, x1) && Done(b, level, h1, l1, c1, x1, h2, l2, c2, x2)
    ensures Done(a + b, level, h0, l0, c0, x0, h2, l2, c2, x2)
  {
    hide Made, Persists, Spares, Named, Explicit, Counting;
    Concat(a, b);
    SparesTrans(h0, l0, c0, h1, l1, c1, Named(a), h2, l2, c2, Named(b), Named(a + b));
    if level > 0 {
      MadeTrans(a, b, h0, l0, c0, h1, l1, c1, h2, l2, c2);
      PersistsTrans(h0, l0, h1, l1, h2, l2);
    }
  }

  lemma DoneLevel(calls: seq<Call>, level: nat, h0: Heap, l0: seq<seq<nat>>, c0: nat, x0: bool,
                  h1: Heap, l1: seq<seq<nat>>, c1: nat, x1: bool)
    requires Done(calls, level + 1, h0, l0, c0, x0, h1, l1, c1, x1)
    ensures Done(calls, level, h0, l0, c0, x0, h1, l1, c1, x1)
  {}

  lemma DonePersists(calls: seq<Call>, level: nat, h0: Heap, l0: seq<seq<nat>>, c0: nat, x0: bool,
                     h1: Heap, l1: seq<seq<nat>>, c1: nat, x1: bool)
    requires Done(calls, level, h0, l0, c0, x0, h1, l1, c1, x1)
    ensures level > 0 ==> Persists(h0, l0, h1, l1)
  {}

  lemma BeginDone(counted: bool, level: nat, h0: Heap, l0: seq<seq<nat>>, c0: nat, x: bool, h1: Heap, l1: seq<seq<nat>>, c1: nat)
    requires Spares(h0, l0, c0, h1, l1, c1, {}) && Persists(h0, l0, h1, l1) && Made([Begins(counted)], h0, l0, c0, h1, l1, c1)
    ensures Done([Begins(counted)], level, h0, l0, c0, x, h1, l1, c1, x)
  {
    Single(Begins(counted));
    hide Persists, Spares, Grown, Named, Explicit, Counting;
  }

  lemma AddDone(level: nat, h0: Heap, l0: seq<seq<nat>>, c: nat, x: bool, h1: Heap, l1: seq<seq<nat>>, h: nat, kind: int)
    requires h !in h0 && AddedTo(l0, l1, h, false, kind)
    requires h1 == if Occurrences(l1, h) == 0 then h0 else h0[h := Hook(kind, Occurrences(l1, h), false)]
    ensures Done([Adds(kind)], level, h0, l0, c, x, h1, l1, c, x)
  {
    hide Made, Persists, Spares, Occurrences;
    AddMade(h0, l0, c, h1, l1, h, kind);
    AddPersists(h0, l0, h1, l1, h, false, kind);
    AddSpares(h0, l0, c, h1, l1, h, false, kind);
    Single(Adds(kind));
  }

  lemma DelDone(level: nat, h0: Heap, h1: Heap, lists: seq<seq<nat>>, c: nat, x: bool, handle: nat)
    requires |lists| == UC_HOOK_MAX && (handle in h0 ==> handle in h1 && h1[handle].toDelete)
    requires forall h :: h in h0 ==> h in h1 && h1[h].kind == h0[h].kind && (h0[h].toDelete ==> h1[h].toDelete)
    requires forall h :: h in h0 && h != handle ==> h1[h] == h0[h]
    ensures Done([Deletes(handle)], level, h0, lists, c, x, h1, lists, c, x)
  {
    hide Made, Persists, Spares;
    DelMade(h0, h1, lists, c, handle);
    DelPersists(h0, h1, lists);
    DelSpares(h0, h1, lists, c, handle);
    Single(Deletes(handle));
  }

  lemma SetDone(level: nat, heap: Heap, lists: seq<seq<nat>>, c: nat, x: bool, on: bool)
    requires |lists| == UC_HOOK_MAX
    ensures Done([Sets(on)], level, heap, lists, c, x, heap, lists, c, on)
  {
    hide Made, Persists, Spares;
    SetMade(heap, lists, c, on);
    Single(Sets(on));
    PersistsSame(heap, lists);
    SparesSame(heap, lists, c, Named([Sets(on)]));
  }

  lemma Sweeps(calls: seq<Call>, h0: Heap, l0: seq<seq<nat>>, c0: nat, x0: bool,
               h: Heap, l: seq<seq<nat>>, del: seq<nat>, h1: Heap, l1: seq<seq<nat>>, c1: nat, x1: bool)
    requires Done(calls, 1, h0, l0, c0, x0, h, l, c1, x1) && Waiting(h, l, del) && |l| == |l1| == UC_HOOK_MAX
    requires h1 == map x | x in h && x !in del :: h[x]
    requires forall i :: 0 <= i < |l| ==> l1[i] == Live(l[i], del)
    ensures Swept(calls, h0, l0, c0, h1, l1, c1) && Done(calls, 0, h0, l0, c0, x0, h1, l1, c1, x1)
  {
    hide Made, Spares, Named, Explicit, Counting, Occurrences, Count, Live;
    assert Cut(h0, h, l, del, h1, l1);
    ClearSpares(h, l, del, h1, l1, c1);
    SparesTrans(h0, l0, c0, h, l, c1, Named(calls), h1, l1, c1, {}, Named(calls));
  }

  /** A hook in memory that a callback deletes is gone after the outermost run. */
  lemma SweptDeleted(calls: seq<Call>, h0: Heap, l0: seq<seq<nat>>, c0: nat, h1: Heap, l1: seq<seq<nat>>, c1: nat, h: nat)
    requires Swept(calls, h0, l0, c0, h1, l1, c1) && h in h0
    requires h in Named(calls) || h0[h].toDelete || (h == c0 && c0 != 0 && Begins(false) in calls)
    ensures h !in h1 && forall i :: 0 <= i < |l1| ==> h !in l1[i]
  {
    hide Grown, Named;
  }

  lemma MadeNone(heap: Heap, lists: seq<seq<nat>>, c: nat)
    requires |lists| == UC_HOOK_MAX
    ensures Made([], heap, lists, c, heap, lists, c)
  {}

  lemma GrownTrans(a: seq<Call>, b: seq<Call>, on: bool, h0: Heap, l0: seq<seq<nat>>, h1: Heap, l1: seq<seq<nat>>, h2: Heap, l2: seq<seq<nat>>)
    requires Grown(a, on, h0, l0, h1, l1) && Grown(b, Counting(a, on), h1, l1, h2, l2)
    requires forall h :: h in h0 ==> h in h1
    requires forall h :: h in h1 ==> h in h2 && h2[h].kind == h1[h].kind
    ensures Grown(a + b, on, h0, l0, h2, l2)
  {
    Concat(a, b);
    hide Counters, KindsOn, Counting, Named, Explicit, GrownList;
    var f1, f2 := Counters(a, on), Counters(b, Counting(a, on));
    forall i | 0 <= i < UC_HOOK_MAX
      ensures GrownList(h0, l0[i], h2, l2[i], if i == UC_HOOK_CODE_IDX then Counters(a + b, on) else 0, KindsOn(a + b, i))
    {
      var g1, g2 := if i == UC_HOOK_CODE_IDX then f1 else 0, if i == UC_HOOK_CODE_IDX then f2 else 0;
      GrownListTrans(h0, l0[i], h1, l1[i], h2, l2[i], g1, KindsOn(a, i), g2, KindsOn(b, i));
    }
  }

  lemma GrownListTrans(h0: Heap, s0: seq<nat>, h1: Heap, s1: seq<nat>, h2: Heap, s2: seq<nat>, f1: nat, k1: seq<int>, f2: nat, k2: seq<int>)
    requires GrownList(h0, s0, h1, s1, f1, k1) && GrownList(h1, s1, h2, s2, f2, k2)
    requires forall h :: h in h0 ==> h in h1
    requires forall h :: h in h1 ==> h in h2 && h2[h].kind == h1[h].kind
    ensures GrownList(h0, s0, h2, s2, f1 + f2, k1 + k2)
  {
    var f := f1 + f2;
    forall j | 0 <= j < |s1| ensures s2[f2 + j] == s1[j] {
      assert s2[f2..f2 + |s1|][j] == s2[f2 + j];
    }
    forall j | 0 <= j < |s0| ensures s2[f..f + |s0|][j] == s0[j] {
      assert s1[f1..f1 + |s0|][j] == s1[f1 + j];
    }
    forall j | 0 <= j < f ensures NewHook(h0, h2, s2[j], UC_HOOK_CODE) {
      if j >= f2 { assert s2[j] == s1[j - f2]; }
    }
    forall j | 0 <= j < |k1 + k2| ensures NewHook(h0, h2, s2[f + |s0| + j], (k1 + k2)[j]) {
      if j < |k1| {
        assert s2[f2 + (f1 + |s0| + j)] == s1[f1 + |s0| + j];
      } else {
        assert s2[f + |s0| + j] == s2[f2 + |s1| + (j - |k1|)];
      }
    }
  }

  lemma MadeTrans(a: seq<Call>, b: seq<Call>, h0: Heap, l0: seq<seq<nat>>, c0: nat, h1: Heap, l1: seq<seq<nat>>, c1: nat,
                  h2: Heap, l2: seq<seq<nat>>, c2: nat)
    requires Made(a, h0, l0, c0, h1, l1, c1) && Made(b, h1, l1, c1, h2, l2, c2)
    requires Persists(h0, l0, h1, l1) && Persists(h1, l1, h2, l2)
    ensures Made(a + b, h0, l0, c0, h2, l2, c2)
  {
    hide Counters, KindsOn, Counting, Named, Explicit, Grown;
    GrownTrans(a, b, c0 != 0, h0, l0, h1, l1, h2, l2);
    Concat(a, b);
  }

  /** A hook just added is the one new hook of its lists. */
  lemma AddGrown(h0: Heap, l0: seq<seq<nat>>, h1: Heap, l1: seq<seq<nat>>, h: nat, first: bool, kind: int, on: bool)
    requires h !in h0 && AddedTo(l0, l1, h, first, kind)
    requires h1 == if Occurrences(l1, h) == 0 then h0 else h0[h := Hook(kind, Occurrences(l1, h), false)]
    ensures !first ==> Grown([Adds(kind)], on, h0, l0, h1, l1)
    ensures first && kind == UC_HOOK_CODE && !on ==> Grown([Begins(true)], on, h0, l0, h1, l1)
  {
    CodeHook();
    Single(Adds(kind));
    Single(Begins(true));
    hide Occurrences, Wanted, Counters, KindsOn;
    forall i: nat | i < UC_HOOK_MAX && Wanted(kind, i) ensures NewHook(h0, h1, h, kind) {
      OccurrencesSome(l1, i, h);
    }
  }

  lemma GrownSame(counted: bool, on: bool, h0: Heap, h1: Heap, lists: seq<seq<nat>>)
    requires |lists| == UC_HOOK_MAX && (counted ==> on)
    ensures Grown([Begins(counted)], on, h0, lists, h1, lists)
  {
    Single(Begins(counted));
  }

  lemma AddMade(h0: Heap, l0: seq<seq<nat>>, c: nat, h1: Heap, l1: seq<seq<nat>>, h: nat, kind: int)
    requires h !in h0 && AddedTo(l0, l1, h, false, kind)
    requires h1 == if Occurrences(l1, h) == 0 then h0 else h0[h := Hook(kind, Occurrences(l1, h), false)]
    ensures Made([Adds(kind)], h0, l0, c, h1, l1, c)
  {
    AddGrown(h0, l0, h1, l1, h, false, kind, c != 0);
    Single(Adds(kind));
    hide Grown, Occurrences, Named, Counting;
  }

  lemma DelMade(h0: Heap, h1: Heap, lists: seq<seq<nat>>, c: nat, handle: nat)
    requires |lists| == UC_HOOK_MAX && (handle in h0 ==> handle in h1 && h1[handle].toDelete)
    ensures Made([Deletes(handle)], h0, lists, c, h1, lists, c)
  {
    Single(Deletes(handle));
  }

  lemma SetMade(heap: Heap, lists: seq<seq<nat>>, c: nat, on: bool)
    requires |lists| == UC_HOOK_MAX
    ensures Made([Sets(on)], heap, lists, c, heap, lists, c)
  {
    Single(Sets(on));
  }

  lemma BeginMade(counted: bool, h0: Heap, l0: seq<seq<nat>>, c0: nat, h1: Heap, l1: seq<seq<nat>>, c1: nat)
    requires Grown([Begins(counted)], c0 != 0, h0, l0, h1, l1) && (c1 != 0 <==> counted)
    requires c0 != 0 && counted ==> c1 == c0
    requires c0 != 0 && !counted && c0 in h0 ==> c0 in h1 && h1[c0].toDelete
    ensures Made([Begins(counted)], h0, l0, c0, h1, l1, c1)
  {
    Single(Begins(counted));
    hide Grown;
  }

  /** A hook in memory is on some list or marked, so deleting it marks it. */
  lemma MarkedBy(heap: Heap, lists: seq<seq<nat>>, toDel: seq<nat>, h: nat)
    requires Counted(heap, lists, toDel) && Waiting(heap, lists, toDel) && h in heap && heap[h].refs > 0
    requires Occurrences(lists, h) == 0
    ensures heap[h].toDelete
  {
    if h !in toDel { Absent(toDel, h); }
  }

  /** Every hook that is not marked for deletion, not named and not the counting hook
      survives, on the same lists. */
  ghost predicate Spares(h0: Heap, l0: seq<seq<nat>>, c0: nat, h1: Heap, l1: seq<seq<nat>>, c1: nat, named: set<nat>) {
    && |l0| == |l1|
    && forall h :: h in h0 && !h0[h].toDelete && h != c0 && h !in named ==> Spared(h0, l0, h1, l1, c1, h)
  }

  ghost predicate Spared(h0: Heap, l0: seq<seq<nat>>, h1: Heap, l1: seq<seq<nat>>, c1: nat, h: nat)
    requires h in h0 && |l0| == |l1|
  {
    && h in h1 && !h1[h].toDelete && h1[h].kind == h0[h].kind && h != c1
    && forall i :: 0 <= i < |l0| ==> (h in l0[i] <==> h in l1[i])
  }

  lemma SparesSame(heap: Heap, lists: seq<seq<nat>>, c: nat, named: set<nat>)
    ensures Spares(heap, lists, c, heap, lists, c, named)
  {}

  lemma SparesTrans(h0: Heap, l0: seq<seq<nat>>, c0: nat, h1: Heap, l1: seq<seq<nat>>, c1: nat, a: set<nat>,
                    h2: Heap, l2: seq<seq<nat>>, c2: nat, b: set<nat>, named: set<nat>)
    requires Spares(h0, l0, c0, h1, l1, c1, a) && Spares(h1, l1, c1, h2, l2, c2, b) && a <= named && b <= named
    ensures Spares(h0, l0, c0, h2, l2, c2, named)
  {}

  lemma AddSpares(h0: Heap, l0: seq<seq<nat>>, c: nat, h1: Heap, l1: seq<seq<nat>>, h: nat, first: bool, kind: int)
    requires h !in h0 && AddedTo(l0, l1, h, first, kind)
    requires h1 == if Occurrences(l1, h) == 0 then h0 else h0[h := Hook(kind, Occurrences(l1, h), false)]
    ensures Spares(h0, l0, c, h1, l1, c, {})
    ensures c == 0 && (forall x :: x in h0 ==> x > 0) ==> Spares(h0, l0, 0, h1, l1, h, {})
  {
    hide Wanted, Occurrences;
  }

  lemma DelSpares(h0: Heap, h1: Heap, lists: seq<seq<nat>>, c: nat, handle: nat)
    requires forall h :: h in h0 && h != handle ==> h in h1 && h1[h] == h0[h]
    ensures Spares(h0, lists, c, h1, lists, c, {handle})
  {}

  lemma ClearSpares(h0: Heap, l0: seq<seq<nat>>, del: seq<nat>, h1: Heap, l1: seq<seq<nat>>, c: nat)
    requires Waiting(h0, l0, del) && |l0| == |l1|
    requires h1 == map h | h in h0 && h !in del :: h0[h]
    requires forall i :: 0 <= i < |l0| ==> l1[i] == Live(l0[i], del)
    ensures Spares(h0, l0, c, h1, l1, c, {})
  {
    hide Occurrences, Count;
  }

  lemma Positive(heap: Heap, lists: seq<seq<nat>>, toDel: seq<nat>)
    requires Counted(heap, lists, toDel)
    ensures forall h :: h in heap ==> h > 0
  {}

  lemma AddPersists(h0: Heap, l0: seq<seq<nat>>, h1: Heap, l1: seq<seq<nat>>, h: nat, first: bool, kind: int)
    requires h !in h0 && AddedTo(l0, l1, h, first, kind)
    requires h1 == if Occurrences(l1, h) == 0 then h0 else h0[h := Hook(kind, Occurrences(l1, h), false)]
    ensures Persists(h0, l0, h1, l1)
  {
    hide Wanted, Occurrences;
  }

  lemma DelPersists(h0: Heap, h1: Heap, lists: seq<seq<nat>>)
    requires forall h :: h in h0 ==> h in h1 && h1[h].kind == h0[h].kind && (h0[h].toDelete ==> h1[h].toDelete)
    ensures Persists(h0, lists, h1, lists)
  {}

  lemma NoneMarked(heap: Heap, lists: seq<seq<nat>>)
    requires Waiting(heap, lists, [])
    ensures forall h :: h in heap ==> !heap[h].toDelete
  {}

  /** The counting hook is an ordinary code hook: it goes on one list and is never refused. */
  lemma CodeHook()
    ensures !Bit(UC_HOOK_CODE, UC_HOOK_INSN_IDX) && !Bit(UC_HOOK_CODE, UC_HOOK_TCG_OPCODE_IDX)
    ensures forall i: nat :: Wanted(UC_HOOK_CODE, i) <==> i == UC_HOOK_CODE_IDX
  {
    assert Shift(4, 0) == 4 && Shift(4, 1) == Shift(2, 0) == 2;
    assert Shift(4, 2) == Shift(2, 1) == Shift(1, 0) == 1;
    assert Shift(4, 3) == Shift(2, 2) == Shift(1, 1) == Shift(0, 0) == 0;
    ShiftZero(4, 3, UC_HOOK_TCG_OPCODE_IDX);
    forall i: nat | i >= 3 ensures !Bit(UC_HOOK_CODE, i) { ShiftZero(4, 3, i); }
  }

  /** A hook on a list is in memory. */
  lemma ListedIn(heap: Heap, lists: seq<seq<nat>>, toDel: seq<nat>, i: nat, h: nat)
    requires Counted(heap, lists, toDel) && i < |lists| && h in lists[i]
    ensures h in heap
  {
    OccurrencesSome(lists, i, h);
  }

  lemma OneLess(heap: Heap, lists: seq<seq<nat>>, toDel: seq<nat>, i: nat, s: seq<nat>, t: seq<nat>)
    requires i < |lists| && lists[i] == s && s != [] && t == s[1..] && Counted(heap, lists, toDel)
    requires forall h :: h in heap ==> heap[h].refs > 0
    ensures s[0] in heap
    ensures heap[s[0]].refs == 1 ==> Counted(heap - {s[0]}, lists[i := t], toDel)
    ensures heap[s[0]].refs > 1 ==> Counted(heap[s[0] := heap[s[0]].(refs := heap[s[0]].refs - 1)], lists[i := t], toDel)
  {
    assert s == [s[0]] + t;
    OccurrencesSome(lists, i, s[0]);
    hide Occurrences;
    forall x ensures Occurrences(lists[i := t], x) == Occurrences(lists, x) - if x == s[0] then 1 else 0 {
      OccurrencesUpdate(lists, i, t, x);
    }
  }

  lemma Cleared(heap: Heap, lists: seq<seq<nat>>, del: seq<nat>, heap': Heap)
    requires Counted(heap, lists, del) && forall x :: x in del ==> Occurrences(lists, x) == 0
    requires heap' == map h | h in heap && h !in del :: heap[h]
    requires forall h :: h in heap && h !in del ==> !heap[h].toDelete
    ensures Counted(heap', lists, []) && Waiting(heap', lists, [])
  {
    hide Occurrences;
    forall x | x !in del ensures Count(del, x) == 0 { Absent(del, x); }
  }

  lemma CountRest(s: seq<nat>, k: nat)
    requires k < |s|
    ensures forall x :: Count(s[k..], x) == Count(s[k + 1..], x) + if x == s[k] then 1 else 0
  {
    assert s[k..] == [s[k]] + s[k + 1..];
  }

  lemma NoneLeft(s: seq<nat>, k: nat, x: nat)
    requires k == |s|
    ensures Count(s[k..], x) == 0 && (s == [] ==> Count(s, x) == 0)
  {}

  lemma Present(s: seq<nat>, x: nat)
    requires x in s
    ensures Count(s, x) > 0
  {}

  lemma Absent(s: seq<nat>, x: nat)
    requires x !in s
    ensures Count(s, x) == 0
  {}

  lemma LiveAll(s: seq<nat>, deleted: seq<nat>)
    requires forall x :: x in deleted ==> x !in s
    ensures Live(s, deleted) == s
  {}

  /** Lists that hold no deleted hook have only live ones. */
  lemma AllLive(lists: seq<seq<nat>>, deleted: seq<nat>)
    requires forall x :: x in deleted ==> Occurrences(lists, x) == 0
    ensures forall i :: 0 <= i < |lists| ==> lists[i] == Live(lists[i], deleted)
  {
    hide Occurrences, Live;
    forall i | 0 <= i < |lists| ensures lists[i] == Live(lists[i], deleted) {
      forall x | x in deleted ensures x !in lists[i] { OccurrencesNone(lists, x); }
      LiveAll(lists[i], deleted);
    }
  }

  lemma OnceRemoved(lists: seq<seq<nat>>, i: nat, h: nat)
    requires Once(lists) && i < |lists|
    ensures Once(lists[i := RemoveFirst(lists[i], h)])
  {
    var after := lists[i := RemoveFirst(lists[i], h)];
    forall j, x | 0 <= j < |lists| ensures Count(after[j], x) <= 1 {
      RemoveFirstCount(lists[i], h, x);
      assert Count(lists[j], x) <= 1;
    }
  }

  lemma Prefix(lists: seq<seq<nat>>, i: nat, h: nat)
    requires Once(lists) && i < |lists|
    ensures Occurrences(lists[..0], h) == 0
    ensures Occurrences(lists[..i + 1], h) == Occurrences(lists[..i], h) + if h in lists[i] then 1 else 0
  {
    assert lists[..i + 1][..i] == lists[..i];
  }

  lemma NotedOnce(heap: Heap, lists: seq<seq<nat>>, toDel: seq<nat>, h: nat, n: nat)
    requires Counted(heap, lists, toDel) && Waiting(heap, lists, toDel) && n == Occurrences(lists, h)
    ensures n > 0 ==> h in heap
    ensures n == 0 ==> toDel + Repeated(h, n) == toDel
    ensures n > 0 ==>
              var toDel', heap' := toDel + Repeated(h, n), heap[h := Hook(heap[h].kind, heap[h].refs + n, true)];
              Counted(heap', lists, toDel') && Waiting(heap', lists, toDel')
  {
    hide Occurrences;
    forall x ensures Count(toDel + Repeated(h, n), x) == Count(toDel, x) + if x == h then n else 0 {
      RepeatedCount(h, n, x);
    }
    forall x ensures x in toDel + Repeated(h, n) <==> x in toDel || (x == h && n > 0) {
      RepeatedCount(h, n, x);
    }
    hide Repeated;
  }

  lemma RepeatedMore(s: seq<nat>, h: nat, n: nat)
    ensures s + Repeated(h, n) + [h] == s + Repeated(h, n + 1) && s + Repeated(h, 0) == s
  {}

  lemma {:induction false} RepeatedCount(h: nat, n: nat, x: nat)
    ensures Count(Repeated(h, n), x) == if x == h then n else 0
    ensures x in Repeated(h, n) <==> x == h && n > 0
  {
    if n == 0 {
      assert Repeated(h, n) == [];
    } else {
      RepeatedCount(h, n - 1, x);
      assert Repeated(h, n) == Repeated(h, n - 1) + [h];
    }
  }

  lemma Unknown(heap: Heap, lists: seq<seq<nat>>, toDel: seq<nat>, h: nat)
    requires Counted(heap, lists, toDel) && h !in heap
    ensures Occurrences(lists, h) == 0 && forall i :: 0 <= i < |lists| ==> h !in lists[i]
  {
    OccurrencesNone(lists, h);
  }

  /** A hook on its lists for the first time leaves all other counts right. */
  lemma Admitted(heap: Heap, l0: seq<seq<nat>>, l1: seq<seq<nat>>, toDel: seq<nat>, h: nat, first: bool, kind: int)
    requires Counted(heap, l0, toDel) && Once(l0) && Waiting(heap, l0, toDel) && h !in heap && h > 0
    requires forall x :: x in heap ==> heap[x].refs > 0
    requires AddedTo(l0, l1, h, first, kind) && OthersSame(l0, l1, h)
    ensures Once(l1)
    ensures Occurrences(l1, h) == 0 ==> Counted(heap, l1, toDel) && Waiting(heap, l1, toDel)
    ensures Occurrences(l1, h) > 0 ==>
              var heap' := heap[h := Hook(kind, Occurrences(l1, h), false)];
              Counted(heap', l1, toDel) && Waiting(heap', l1, toDel) && forall x :: x in heap' ==> heap'[x].refs > 0
  {
    Unknown(heap, l0, toDel, h);
    assert Occurrences(l0, h) == 0;
    hide Occurrences;
    forall i, x | 0 <= i < |l1| ensures Count(l1[i], x) <= 1 {
      assert Count(l0[i], x) <= 1 && h !in l0[i];
    }
  }

  /** The hook is on exactly the lists its type asks for, at their front or back. */
  ghost predicate AddedTo(l0: seq<seq<nat>>, l1: seq<seq<nat>>, h: nat, first: bool, kind: int) {
    && |l0| == |l1| == UC_HOOK_MAX
    && forall i: nat :: i < UC_HOOK_MAX ==> l1[i] == if Wanted(kind, i) then Linked(l0[i], h, first) else l0[i]
  }

  ghost predicate OthersSame(l0: seq<seq<nat>>, l1: seq<seq<nat>>, h: nat) {
    forall x :: x != h ==> Occurrences(l1, x) == Occurrences(l0, x)
  }
}
