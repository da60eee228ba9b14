/** Reference counting of hooks: which lists hold a hook, and what removing it does. */
module HookState {

  const UC_HOOK_MAX: nat := 17

  datatype Hook = Hook(kind: int, refs: int, toDelete: bool)

  type Heap = map<nat, Hook>

  ghost function Count(s: seq<nat>, h: nat): nat { multiset(s)[h] }

  /** Occurrences of a hook over all lists. */
  ghost function Occurrences(lists: seq<seq<nat>>, h: nat): nat {
    if lists == [] then 0 else Occurrences(lists[..|lists| - 1], h) + Count(lists[|lists| - 1], h)
  }

  /** list_remove on the contents: the first occurrence goes. */
  function RemoveFirst(s: seq<nat>, h: nat): (r: seq<nat>)
    ensures h !in s ==> r == s
  {
    if s == [] then []
    else if s[0] == h then s[1..]
    else [s[0]] + RemoveFirst(s[1..], h)
  }

  /** The hooks of a list that are not among the deleted ones, in their order. */
  function Live(s: seq<nat>, deleted: seq<nat>): (r: seq<nat>)
    ensures forall h :: h in r <==> h in s && h !in deleted
    ensures (forall h :: h in s ==> h !in deleted) ==> r == s
  {
    if s == [] then []
    else (if s[0] in deleted then [] else [s[0]]) + Live(s[1..], deleted)
  }

  /** Every count is right: a hook is referenced once for each place that holds it. */
  ghost predicate Counted(heap: Heap, lists: seq<seq<nat>>, toDel: seq<nat>) {
    && (forall h :: h in heap ==> h > 0 && heap[h].refs == Occurrences(lists, h) + Count(toDel, h))
    && (forall h :: h !in heap ==> Occurrences(lists, h) == 0 && Count(toDel, h) == 0)
  }

  ghost predicate Once(lists: seq<seq<nat>>) {
    forall i, h :: 0 <= i < |lists| ==> Count(lists[i], h) <= 1
  }

  /** Hooks waiting for deletion are marked, and named often enough to take them off all lists. */
  ghost predicate Waiting(heap: Heap, lists: seq<seq<nat>>, toDel: seq<nat>) {
    && (forall h :: h in heap ==> (heap[h].toDelete <==> h in toDel))
    && (forall h :: h in toDel ==> h in heap && Occurrences(lists, h) <= Count(toDel, h))
  }

  lemma {:induction false} OccurrencesUpdate(lists: seq<seq<nat>>, i: nat, s: seq<nat>, h: nat)
    requires i < |lists|
    ensures Occurrences(lists[i := s], h) == Occurrences(lists, h) - Count(lists[i], h) + Count(s, h)
  {
    var n := |lists| - 1;
    if i == n {
      assert lists[i := s][..n] == lists[..n];
    } else {
      assert lists[i := s][..n] == lists[..n][i := s];
      OccurrencesUpdate(lists[..n], i, s, h);
    }
  }

  lemma {:induction false} OccurrencesSome(lists: seq<seq<nat>>, i: nat, h: nat)
    requires i < |lists|
    ensures Occurrences(lists, h) >= Count(lists[i], h)
    decreases |lists|
  {
    var n := |lists| - 1;
    if i < n {
      assert lists[..n][i] == lists[i];
      OccurrencesSome(lists[..n], i, h);
    }
  }

  lemma {:induction false} OccurrencesNone(lists: seq<seq<nat>>, h: nat)
    ensures Occurrences(lists, h) == 0 <==> forall i :: 0 <= i < |lists| ==> h !in lists[i]
  {
    if lists != [] {
      var n := |lists| - 1;
      OccurrencesNone(lists[..n], h);
      assert forall i :: 0 <= i < n ==> lists[..n][i] == lists[i];
    }
  }

  lemma {:induction false} RemoveFirstCount(s: seq<nat>, h: nat, x: nat)
    ensures Count(RemoveFirst(s, h), x) == Count(s, x) - if x == h && h in s then 1 else 0
  {
    if s != [] {
      assert s == [s[0]] + s[1..];
      if s[0] != h { RemoveFirstCount(s[1..], h, x); }
    }
  }

  /** Removing a deleted hook from a list does not show among the live ones. */
  lemma {:induction false} LiveRemove(s: seq<nat>, h: nat, deleted: seq<nat>)
    requires h in deleted
    ensures Live(RemoveFirst(s, h), deleted) == Live(s, deleted)
  {
    if s != [] && s[0] != h {
      LiveRemove(s[1..], h, deleted);
      var r := RemoveFirst(s, h);
      assert r[0] == s[0] && r[1..] == RemoveFirst(s[1..], h);
    }
  }
}
