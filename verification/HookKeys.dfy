/** The list of temporary hooks as it is stored: each listed hook lies in the slab under a
    key that may have belonged to a dropped hook before. */
module HookKeys {
  import opened Results
  import opened LinkedSlabs
  import opened HookLists

  ghost predicate Stores(slab: LinkedSlab<nat>, list: seq<nat>)
    reads slab
  {
    slab.Valid() && slab.Items() == list && NoRepeats(list)
  }

  // The key in the hook's handle.
  ghost function KeyOf(slab: LinkedSlab<nat>, list: seq<nat>, k: nat): nat
    requires Stores(slab, list) && k in list
    reads slab
  {
    slab.keys[Pos(list, k)]
  }

  /** Different hooks have different keys, and under them the slab's lookups are the list's. */
  lemma SlabLooksUpTheList(slab: LinkedSlab<nat>, list: seq<nat>, k: nat)
    requires Stores(slab, list) && k in list
    ensures forall j :: j in list && KeyOf(slab, list, j) == KeyOf(slab, list, k) ==> j == k
    ensures slab.First() == Some(list[0])
    ensures slab.Get(KeyOf(slab, list, k)) == Some(k)
    ensures slab.GetNext(KeyOf(slab, list, k)) == Successor(list, k)
  {
    var i := Pos(list, k);
    assert |slab.keys| == |list|;
    slab.GettersFollowTheSequence(slab.keys[i]);
    SuccessorAt(list, i);
    forall j | j in list && KeyOf(slab, list, j) == KeyOf(slab, list, k) ensures j == k {
      assert slab.keys[Pos(list, j)] == slab.keys[i];
    }
  }

  // In a list without repeats an element stands at one position.
  lemma OnlyPosition(list: seq<nat>, i: nat)
    requires NoRepeats(list) && i < |list|
    ensures Pos(list, list[i]) == i
  {
    assert list[Pos(list, list[i])] == list[i];
  }

  // Taking the same position out of both lists leaves the others paired as before.
  lemma PairsStayPaired(list: seq<nat>, keys: seq<nat>, i: nat, j: nat)
    requires |keys| == |list| && i < |list| && j in list && j != list[i]
    requires NoRepeats(list) && NoRepeats(list[..i] + list[i + 1..])
    ensures
      var rest := list[..i] + list[i + 1..];
      && j in rest && (keys[..i] + keys[i + 1..])[Pos(rest, j)] == keys[Pos(list, j)]
  {
    var p := Pos(list, j);
    var q := if p < i then p else p - 1;
    var rest := list[..i] + list[i + 1..];
    assert rest[q] == j;
    OnlyPosition(rest, q);
  }

  // What the push and the removal of a protocol step do to the hooks and to their keys.
  lemma PushPairs(l: List, k: nat, keys: seq<nat>, key: nat)
    requires ListInv(l) && TempIn(l, k, Locked) && |keys| == |l.list|
    ensures
      var list := TempNext(l, TempPush(k)).list;
      && list == [k] + l.list && NoRepeats(list) && Pos(list, k) == 0
      && forall j :: j in l.list ==> j in list && ([key] + keys)[Pos(list, j)] == keys[Pos(l.list, j)]
  {
    TempNextKeepsList(l, TempPush(k));
    var list := TempNext(l, TempPush(k)).list;
    forall j | j in l.list ensures j in list && ([key] + keys)[Pos(list, j)] == keys[Pos(l.list, j)] {
      assert list[Pos(l.list, j) + 1] == j;
      OnlyPosition(list, Pos(l.list, j) + 1);
    }
  }

  lemma RemovePairs(l: List, k: nat, keys: seq<nat>)
    requires ListInv(l) && TempIn(l, k, DropLocked) && k in l.list && |keys| == |l.list| && NoRepeats(keys)
    ensures
      var (list, i) := (TempNext(l, DropRemove(k)).list, Pos(l.list, k));
      && list == l.list[..i] + l.list[i + 1..] && NoRepeats(list)
      && Without(keys, keys[i]) == keys[..i] + keys[i + 1..]
      && forall j :: j in l.list && j != k ==> j in list && Without(keys, keys[i])[Pos(list, j)] == keys[Pos(l.list, j)]
  {
    TempNextKeepsList(l, DropRemove(k));
    var i := Pos(l.list, k);
    WithoutAt(l.list, i);
    WithoutAt(keys, i);
    forall j | j in l.list && j != k
      ensures j in Without(l.list, k) && Without(keys, keys[i])[Pos(Without(l.list, k), j)] == keys[Pos(l.list, j)]
    {
      PairsStayPaired(l.list, keys, i, j);
    }
  }

  /** The push of a protocol step, carried out in the slab: the new hook gets the vacant
      key, all others keep theirs. */
  method PushHook(slab: LinkedSlab<nat>, ghost l: List, k: nat, vacant: nat) returns (key: nat)
    requires ListInv(l) && Stores(slab, l.list) && TempIn(l, k, Locked)
    requires vacant !in slab.inner && vacant != NO_KEY
    modifies slab
    ensures Stores(slab, TempNext(l, TempPush(k)).list)
    ensures k in TempNext(l, TempPush(k)).list && KeyOf(slab, TempNext(l, TempPush(k)).list, k) == key == vacant
    ensures forall j :: j in l.list ==>
              j in TempNext(l, TempPush(k)).list && KeyOf(slab, TempNext(l, TempPush(k)).list, j) == old(KeyOf(slab, l.list, j))
  {
    PushPairs(l, k, slab.keys, vacant);
    key := slab.PushFront(k, vacant);
  }

  /** The removal that ends a drop: exactly the hook's own key goes, all others stay. */
  method RemoveHook(slab: LinkedSlab<nat>, ghost l: List, k: nat, key: nat)
    requires ListInv(l) && Stores(slab, l.list) && TempIn(l, k, DropLocked)
    requires k in l.list && key == KeyOf(slab, l.list, k)
    modifies slab
    ensures Stores(slab, TempNext(l, DropRemove(k)).list)
    ensures forall j :: j in l.list && j != k ==>
              j in TempNext(l, DropRemove(k)).list && KeyOf(slab, TempNext(l, DropRemove(k)).list, j) == old(KeyOf(slab, l.list, j))
  {
    ghost var (i, items) := (Pos(l.list, k), slab.Items());
    RemovePairs(l, k, slab.keys);
    var closure := slab.Remove(key);
    assert slab.Items() == items[..i] + items[i + 1..];
  }
}
