/** A doubly linked list threaded through the slots of a slab. The slab is a map from
    occupied keys to nodes; which vacant key it hands out is a parameter, so keys are
    reused freely. */
module LinkedSlabs {
  import opened Results

  const NO_KEY: nat := 0xFFFF_FFFF_FFFF_FFFF   // usize::MAX, never a slab key

  // ----- what the list does to a sequence of keys

  ghost predicate NoRepeats(keys: seq<nat>) {
    forall i, j :: 0 <= i < j < |keys| ==> keys[i] != keys[j]
  }

  function Without(keys: seq<nat>, key: nat): seq<nat> {
    if keys == [] then []
    else if keys[0] == key then keys[1..]
    else [keys[0]] + Without(keys[1..], key)
  }

  function Successor(keys: seq<nat>, key: nat): Option<nat> {
    if keys == [] then None
    else if keys[0] == key then if |keys| == 1 then None else Some(keys[1])
    else Successor(keys[1..], key)
  }

  lemma {:induction false} SuccessorAt(keys: seq<nat>, i: nat)
    requires NoRepeats(keys) && i < |keys|
    ensures Successor(keys, keys[i]) == if i + 1 < |keys| then Some(keys[i + 1]) else None
  {
    if i > 0 {
      assert keys[1..][i - 1] == keys[i];
      SuccessorAt(keys[1..], i - 1);
    }
  }

  lemma {:induction false} WithoutAt(keys: seq<nat>, i: nat)
    requires NoRepeats(keys) && i < |keys|
    ensures Without(keys, keys[i]) == keys[..i] + keys[i + 1..]
  {
    if i > 0 {
      WithoutAt(keys[1..], i - 1);
      assert keys[1..][i - 1] == keys[i];
      assert keys[..i] + keys[i + 1..] == [keys[0]] + (keys[1..][..i - 1] + keys[1..][i..]);
    }
  }

  lemma GapKeepsOrder(keys: seq<nat>, i: nat)
    requires NoRepeats(keys) && i < |keys|
    ensures
      var rest := keys[..i] + keys[i + 1..];
      && NoRepeats(rest)
      && forall k :: 0 <= k < |rest| ==> rest[k] == if k < i then keys[k] else keys[k + 1]
  {
  }

  lemma SuccessorAcrossGap(keys: seq<nat>, i: nat, j: nat)
    requires NoRepeats(keys) && i < |keys| && j < |keys| && i != j
    ensures
      var rest := keys[..i] + keys[i + 1..];
      && keys[j] in rest
      && (Successor(keys, keys[j]) == Some(keys[i]) <==> j + 1 == i)
      && Successor(rest, keys[j]) == Successor(keys, if j + 1 == i then keys[i] else keys[j])
  {
    var rest := keys[..i] + keys[i + 1..];
    var j' := if j < i then j else j - 1;
    GapKeepsOrder(keys, i);
    assert rest[j'] == keys[j];
    SuccessorAt(keys, j);
    SuccessorAt(keys, i);
    SuccessorAt(rest, j');
  }

  /** Removing a key keeps the others, in their order and without repeats. */
  lemma {:induction false} WithoutKeepsOthers(keys: seq<nat>, key: nat)
    requires NoRepeats(keys)
    ensures NoRepeats(Without(keys, key))
    ensures forall k :: k in Without(keys, key) <==> k in keys && k != key
    ensures forall k :: k in keys && k != key && Successor(keys, k) != Some(key)
              ==> Successor(Without(keys, key), k) == Successor(keys, k)
    ensures forall k :: k in keys && k != key && Successor(keys, k) == Some(key)
              ==> Successor(Without(keys, key), k) == Successor(keys, key)
  {
    if key in keys {
      var i :| 0 <= i < |keys| && keys[i] == key;
      var rest := keys[..i] + keys[i + 1..];
      WithoutAt(keys, i);
      forall k | k in keys && k != key
        ensures k in rest
        ensures Successor(keys, k) != Some(key) ==> Successor(rest, k) == Successor(keys, k)
        ensures Successor(keys, k) == Some(key) ==> Successor(rest, k) == Successor(keys, key)
      {
        var j :| 0 <= j < |keys| && keys[j] == k;
        SuccessorAcrossGap(keys, i, j);
      }
    } else {
      WithoutAbsent(keys, key);
      forall k | k in keys ensures Successor(keys, k) != Some(key) {
        var j :| 0 <= j < |keys| && keys[j] == k;
        SuccessorAt(keys, j);
      }
    }
  }

  lemma {:induction false} WithoutAbsent(keys: seq<nat>, key: nat)
    requires key !in keys
    ensures Without(keys, key) == keys
  {
    if keys != [] {
      WithoutAbsent(keys[1..], key);
    }
  }

  // ----- the slab

  datatype Node<T> = Node(item: T, next: nat, prev: nat)

  // The i-th key, NO_KEY beyond either end.
  function KeyAt(keys: seq<nat>, i: int): nat {
    if 0 <= i < |keys| then keys[i] else NO_KEY
  }

  // Position `i` is occupied and its two links are mutual inverses of its neighbours'.
  ghost predicate LinkOk<T>(inner: map<nat, Node<T>>, keys: seq<nat>, i: int)
    requires 0 <= i < |keys|
  {
    && keys[i] in inner
    && inner[keys[i]].next == KeyAt(keys, i + 1)
    && inner[keys[i]].prev == KeyAt(keys, i - 1)
  }

  ghost predicate Linked<T>(inner: map<nat, Node<T>>, keys: seq<nat>) {
    && NoRepeats(keys)
    && NO_KEY !in inner
    && (forall k :: k in inner ==> k in keys)
    && forall i {:trigger LinkOk(inner, keys, i)} :: 0 <= i < |keys| ==> LinkOk(inner, keys, i)
  }

  ghost function ItemsOf<T>(inner: map<nat, Node<T>>, keys: seq<nat>): (items: seq<T>)
    requires Linked(inner, keys)
    ensures |items| == |keys|
    ensures forall i {:trigger items[i]} :: 0 <= i < |keys| ==> LinkOk(inner, keys, i) && items[i] == inner[keys[i]].item
  {
    seq(|keys|, i requires 0 <= i < |keys| => assert LinkOk(inner, keys, i); inner[keys[i]].item)
  }

  lemma KeyHasPosition<T>(inner: map<nat, Node<T>>, keys: seq<nat>, key: nat) returns (i: nat)
    requires Linked(inner, keys) && key in inner
    ensures i < |keys| && keys[i] == key && LinkOk(inner, keys, i)
    ensures Successor(keys, key) == if i + 1 < |keys| then Some(keys[i + 1]) else None
  {
    i :| 0 <= i < |keys| && keys[i] == key;
    SuccessorAt(keys, i);
  }

  lemma EveryKeyIsOccupied<T>(inner: map<nat, Node<T>>, keys: seq<nat>)
    requires Linked(inner, keys)
    ensures forall k :: k in keys <==> k in inner
  {
    forall k | k in keys ensures k in inner {
      var i :| 0 <= i < |keys| && keys[i] == k;
      assert LinkOk(inner, keys, i);
    }
  }

  // What `push_front` and `remove` leave in the slab.
  function Pushed<T>(inner: map<nat, Node<T>>, first: nat, key: nat, item: T): map<nat, Node<T>> {
    var added := inner[key := Node(item, first, NO_KEY)];
    if first in added then added[first := added[first].(prev := key)] else added
  }

  function Unlinked<T>(inner: map<nat, Node<T>>, key: nat): map<nat, Node<T>>
    requires key in inner
  {
    var node := inner[key];
    var less := inner - {key};
    var fixed := if node.prev in less then less[node.prev := less[node.prev].(next := node.next)] else less;
    var prev := if node.prev in less then node.prev else NO_KEY;
    if node.next in fixed then fixed[node.next := fixed[node.next].(prev := prev)] else fixed
  }

  lemma PushKeepsLinks<T>(inner: map<nat, Node<T>>, keys: seq<nat>, key: nat, item: T)
    requires Linked(inner, keys) && key !in inner && key != NO_KEY
    ensures Linked(Pushed(inner, KeyAt(keys, 0), key, item), [key] + keys)
  {
    var inner' := Pushed(inner, KeyAt(keys, 0), key, item);
    var keys' := [key] + keys;
    EveryKeyIsOccupied(inner, keys);
    forall i | 0 <= i < |keys'| ensures LinkOk(inner', keys', i) {
      if i > 0 { assert LinkOk(inner, keys, i - 1); }
      if i == 0 && |keys| > 0 { assert LinkOk(inner, keys, 0); }
    }
  }

  lemma PushAddsItem<T>(inner: map<nat, Node<T>>, keys: seq<nat>, key: nat, item: T)
    requires Linked(inner, keys) && key !in inner && key != NO_KEY
    requires Linked(Pushed(inner, KeyAt(keys, 0), key, item), [key] + keys)
    ensures ItemsOf(Pushed(inner, KeyAt(keys, 0), key, item), [key] + keys) == [item] + ItemsOf(inner, keys)
  {
  }

  // Unlinking touches only the two neighbours' links.
  lemma UnlinkedAt<T>(inner: map<nat, Node<T>>, keys: seq<nat>, i: nat, j: nat)
    requires Linked(inner, keys) && i < |keys| && j < |keys| && i != j
    requires LinkOk(inner, keys, i) && LinkOk(inner, keys, j)
    ensures
      var inner' := Unlinked(inner, keys[i]);
      && keys[j] in inner'
      && inner'[keys[j]].item == inner[keys[j]].item
      && inner'[keys[j]].next == (if j + 1 == i then KeyAt(keys, i + 1) else KeyAt(keys, j + 1))
      && inner'[keys[j]].prev == (if j == i + 1 then KeyAt(keys, i - 1) else KeyAt(keys, j - 1))
  {
    if i > 0 { assert LinkOk(inner, keys, i - 1); }
    if i + 1 < |keys| { assert LinkOk(inner, keys, i + 1); }
  }

  lemma KeyAtWithout(keys: seq<nat>, i: nat, j: int)
    requires i < |keys|
    ensures KeyAt(keys[..i] + keys[i + 1..], j) == if j < i then KeyAt(keys, j) else KeyAt(keys, j + 1)
  {
  }

  lemma NoRepeatsWithout(keys: seq<nat>, i: nat)
    requires NoRepeats(keys) && i < |keys|
    ensures NoRepeats(keys[..i] + keys[i + 1..])
  {
  }

  lemma RemoveKeepsLinks<T>(inner: map<nat, Node<T>>, keys: seq<nat>, i: nat)
    requires Linked(inner, keys) && i < |keys| && LinkOk(inner, keys, i)
    ensures Linked(Unlinked(inner, keys[i]), keys[..i] + keys[i + 1..])
  {
    var inner' := Unlinked(inner, keys[i]);
    var keys' := keys[..i] + keys[i + 1..];
    NoRepeatsWithout(keys, i);
    forall k | k in inner' ensures k in keys' {
      UnlinkedKeys(inner, keys, i, k);
      var j := KeyHasPosition(inner, keys, k);
      KeyAtWithout(keys, i, if j < i then j else j - 1);
    }
    forall j | 0 <= j < |keys'| ensures LinkOk(inner', keys', j) {
      LinkAfterRemoval(inner, keys, i, j);
    }
    UnlinkedKeys(inner, keys, i, NO_KEY);
  }

  lemma LinkAfterRemoval<T>(inner: map<nat, Node<T>>, keys: seq<nat>, i: nat, j: nat)
    requires Linked(inner, keys) && i < |keys| && LinkOk(inner, keys, i)
    requires j < |keys[..i] + keys[i + 1..]|
    ensures LinkOk(Unlinked(inner, keys[i]), keys[..i] + keys[i + 1..], j)
  {
    var j0 := if j < i then j else j + 1;
    assert LinkOk(inner, keys, j0);
    UnlinkedAt(inner, keys, i, j0);
    KeyAtWithout(keys, i, j);
    KeyAtWithout(keys, i, j + 1);
    KeyAtWithout(keys, i, j - 1);
  }

  lemma UnlinkedKeys<T>(inner: map<nat, Node<T>>, keys: seq<nat>, i: nat, k: nat)
    requires Linked(inner, keys) && i < |keys| && LinkOk(inner, keys, i)
    ensures k in Unlinked(inner, keys[i]) <==> k in inner && k != keys[i]
  {
  }

  lemma RemoveKeepsItems<T>(inner: map<nat, Node<T>>, keys: seq<nat>, i: nat)
    requires Linked(inner, keys) && i < |keys| && LinkOk(inner, keys, i)
    ensures Linked(Unlinked(inner, keys[i]), keys[..i] + keys[i + 1..])
    ensures ItemsOf(Unlinked(inner, keys[i]), keys[..i] + keys[i + 1..])
            == ItemsOf(inner, keys)[..i] + ItemsOf(inner, keys)[i + 1..]
    ensures inner[keys[i]].prev in inner - {keys[i]} <==> i > 0
    ensures KeyAt(keys[..i] + keys[i + 1..], 0) == if i > 0 then keys[0] else inner[keys[i]].next
  {
    RemoveKeepsLinks(inner, keys, i);
    if i > 0 { assert LinkOk(inner, keys, i - 1); }
    var (was, now) := (ItemsOf(inner, keys), ItemsOf(Unlinked(inner, keys[i]), keys[..i] + keys[i + 1..]));
    forall j | 0 <= j < |now| ensures now[j] == (was[..i] + was[i + 1..])[j] {
      var j0 := if j < i then j else j + 1;
      assert LinkOk(inner, keys, j0);
      UnlinkedAt(inner, keys, i, j0);
    }
  }

  class LinkedSlab<T> {
    var inner: map<nat, Node<T>>
    var first: nat
    ghost var keys: seq<nat>   // front to back

    ghost predicate Valid()
      reads this
    {
      Linked(inner, keys) && first == KeyAt(keys, 0)
    }

    ghost function Items(): seq<T>
      requires Valid()
      reads this
    {
      ItemsOf(inner, keys)
    }

    constructor ()
      ensures Valid() && keys == []
    {
      inner, first, keys := map[], NO_KEY, [];
    }

    function Get(key: nat): (item: Option<T>)
      reads this
    {
      if key in inner then Some(inner[key].item) else None
    }

    function First(): (item: Option<T>)
      reads this
    {
      Get(first)
    }

    function GetNext(key: nat): (item: Option<T>)
      reads this
    {
      if key in inner then Get(inner[key].next) else None
    }

    /** The getters answer by position: each key its own item, `First` the head,
        `GetNext` the successor's item, and nothing beyond the end or off the list. */
    lemma GettersFollowTheSequence(key: nat)
      requires Valid()
      ensures First() == if keys == [] then None else Some(Items()[0])
      ensures key !in keys ==> Get(key) == None && GetNext(key) == None
      ensures forall i :: 0 <= i < |keys| && keys[i] == key ==>
                && Get(key) == Some(Items()[i])
                && GetNext(key) == if i + 1 < |keys| then Some(Items()[i + 1]) else None
    {
      EveryKeyIsOccupied(inner, keys);
      if keys != [] { assert LinkOk(inner, keys, 0); }
      forall i | 0 <= i < |keys| && keys[i] == key
        ensures Get(key) == Some(Items()[i])
        ensures GetNext(key) == if i + 1 < |keys| then Some(Items()[i + 1]) else None
      {
        assert LinkOk(inner, keys, i);
        if i + 1 < |keys| { assert LinkOk(inner, keys, i + 1); }
      }
    }

    /** Prepends the item under a fresh key. */
    method PushFront(item: T, vacant: nat) returns (key: nat)
      requires Valid() && vacant !in inner && vacant != NO_KEY
      modifies this
      ensures Valid()
      ensures key == vacant && keys == [key] + old(keys)
      ensures Items() == [item] + old(Items())
    {
      PushKeepsLinks(inner, keys, vacant, item);
      PushAddsItem(inner, keys, vacant, item);
      var oldFirst := first;
      key := vacant;
      inner := inner[key := Node(item, oldFirst, NO_KEY)];
      first := key;
      if oldFirst in inner {
        inner := inner[oldFirst := inner[oldFirst].(prev := first)];
      }
      keys := [key] + keys;
    }

    // Takes the node out of the slab and closes the gap.
    method Unlink(key: nat) returns (item: T)
      requires key in inner
      modifies this`inner, this`first
      ensures inner == Unlinked(old(inner), key) && item == old(inner)[key].item
      ensures first == if old(inner)[key].prev in old(inner) - {key} then old(first) else old(inner)[key].next
    {
      var node := inner[key];
      inner := inner - {key};
      var prev := NO_KEY;
      if node.prev in inner {
        inner := inner[node.prev := inner[node.prev].(next := node.next)];
        prev := node.prev;
      } else {
        first := node.next;
      }
      if node.next in inner {
        inner := inner[node.next := inner[node.next].(prev := prev)];
      }
      item := node.item;
    }

    /** Removes exactly this key, from any position, and answers its item. */
    method Remove(key: nat) returns (item: Option<T>)
      requires Valid()
      modifies this
      ensures Valid()
      ensures keys == Without(old(keys), key)
      ensures key !in old(keys) ==> item == None && inner == old(inner)
      ensures forall i :: 0 <= i < |old(keys)| && old(keys)[i] == key ==>
                && item == Some(old(Items())[i])
                && Items() == old(Items())[..i] + old(Items())[i + 1..]
    {
      EveryKeyIsOccupied(inner, keys);
      if key !in inner {
        WithoutAbsent(keys, key);
        return None;
      }
      ghost var i := KeyHasPosition(inner, keys, key);
      RemoveKeepsItems(inner, keys, i);
      WithoutAt(keys, i);
      var taken := Unlink(key);
      keys := keys[..i] + keys[i + 1..];
      item := Some(taken);
    }

    /** Walks the list from the head; it ends after every item was met once, in order. */
    method Iter() returns (items: seq<T>)
      requires Valid()
      ensures items == Items()
    {
      EveryKeyIsOccupied(inner, keys);
      items := [];
      var next := first;
      while next in inner
        invariant |items| <= |keys| && next == KeyAt(keys, |items|)
        invariant items == Items()[..|items|]
        decreases |keys| - |items|
      {
        assert LinkOk(inner, keys, |items|);
        items := items + [inner[next].item];
        next := inner[next].next;
      }
    }
  }
}
