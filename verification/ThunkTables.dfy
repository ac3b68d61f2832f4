/** The table of hooked functions: sorted by address, searched by halving. */
module ThunkTables {
  import opened Ranges

  datatype ThunkFn = ThunkFn(addr: nat, thunk: Range)

  ghost predicate Sorted(table: seq<ThunkFn>) {
    forall i, j :: 0 <= i < j < |table| ==> table[i].addr < table[j].addr
  }

  // The table as a finite map.
  ghost function AsMap(table: seq<ThunkFn>): map<nat, Range> {
    if table == [] then map[] else AsMap(table[..|table| - 1])[table[|table| - 1].addr := table[|table| - 1].thunk]
  }

  predicate HasAddr(table: seq<ThunkFn>, addr: nat) {
    exists i :: 0 <= i < |table| && table[i].addr == addr
  }

  ghost predicate Describes(m: map<nat, Range>, table: seq<ThunkFn>) {
    && (forall a :: a in m ==> HasAddr(table, a))
    && (forall i :: 0 <= i < |table| ==> table[i].addr in m && m[table[i].addr] == table[i].thunk)
  }

  lemma {:induction false} AsMapDescribes(table: seq<ThunkFn>)
    requires Sorted(table)
    ensures Describes(AsMap(table), table)
  {
    if table != [] {
      var n := |table| - 1;
      AsMapDescribes(table[..n]);
      DescribesOneMore(AsMap(table[..n]), table[..n], table[n]);
      assert table == table[..n] + [table[n]];
    }
  }

  lemma DescribesOneMore(m: map<nat, Range>, table: seq<ThunkFn>, t: ThunkFn)
    requires Describes(m, table) && Sorted(table + [t])
    ensures Describes(m[t.addr := t.thunk], table + [t])
  {
    var table' := table + [t];
    assert table'[|table|] == t;
    forall a | a in m ensures HasAddr(table', a) {
      var i :| 0 <= i < |table| && table[i].addr == a;
      assert table'[i] == table[i];
    }
    forall i | 0 <= i < |table| ensures table[i].addr != t.addr {
      assert table'[i].addr < table'[|table|].addr;
    }
  }

  function Inserted(table: seq<ThunkFn>, index: nat, t: ThunkFn): seq<ThunkFn>
    requires index <= |table|
  {
    table[..index] + [t] + table[index..]
  }

  // `index` is where the binary search for the absent address ends.
  ghost predicate IsSlot(table: seq<ThunkFn>, index: nat, addr: nat) {
    && index <= |table| && !HasAddr(table, addr)
    && (forall i :: 0 <= i < index ==> table[i].addr < addr)
    && (forall i :: index <= i < |table| ==> addr < table[i].addr)
  }

  lemma InsertKeepsSorted(table: seq<ThunkFn>, index: nat, t: ThunkFn)
    requires Sorted(table) && IsSlot(table, index, t.addr)
    ensures Sorted(Inserted(table, index, t))
  {
  }

  lemma InsertedIsDescribed(table: seq<ThunkFn>, index: nat, t: ThunkFn, m: map<nat, Range>)
    requires IsSlot(table, index, t.addr) && Describes(m, table)
    ensures Describes(m[t.addr := t.thunk], Inserted(table, index, t))
  {
    var table' := Inserted(table, index, t);
    assert table'[index] == t;
    forall a | a in m ensures HasAddr(table', a) {
      var i :| 0 <= i < |table| && table[i].addr == a;
      assert table'[if i < index then i else i + 1] == table[i];
    }
  }

  lemma DescriptionIsUnique(m: map<nat, Range>, n: map<nat, Range>, table: seq<ThunkFn>)
    requires Describes(m, table) && Describes(n, table)
    ensures m == n
  {
  }

  /** Inserting at the slot of an absent address keeps the order and adds just that entry. */
  lemma InsertAddsEntry(table: seq<ThunkFn>, index: nat, t: ThunkFn)
    requires Sorted(table) && IsSlot(table, index, t.addr)
    ensures Sorted(Inserted(table, index, t))
    ensures AsMap(Inserted(table, index, t)) == AsMap(table)[t.addr := t.thunk]
  {
    InsertKeepsSorted(table, index, t);
    AsMapDescribes(table);
    AsMapDescribes(Inserted(table, index, t));
    InsertedIsDescribed(table, index, t, AsMap(table));
    DescriptionIsUnique(AsMap(Inserted(table, index, t)), AsMap(table)[t.addr := t.thunk], Inserted(table, index, t));
  }

  lemma SlotOrEntry(table: seq<ThunkFn>, addr: nat, index: nat)
    requires Sorted(table) && index <= |table|
    requires forall i :: 0 <= i < index ==> table[i].addr < addr
    requires index < |table| ==> addr <= table[index].addr
    ensures if HasAddr(table, addr) then index < |table| && table[index].addr == addr else IsSlot(table, index, addr)
  {
    if HasAddr(table, addr) {
      var i :| 0 <= i < |table| && table[i].addr == addr;
      assert index < |table|;
    }
  }

  /** The search's answer decides membership, and otherwise is the slot to insert at. */
  lemma SearchFindsSlot(table: seq<ThunkFn>, addr: nat, index: nat)
    requires Sorted(table) && index <= |table|
    requires forall i :: 0 <= i < index ==> table[i].addr < addr
    requires index < |table| ==> addr <= table[index].addr
    ensures addr in AsMap(table) <==> index < |table| && table[index].addr == addr
    ensures addr in AsMap(table) ==> AsMap(table)[addr] == table[index].thunk
    ensures addr !in AsMap(table) ==> IsSlot(table, index, addr)
  {
    AsMapDescribes(table);
    SlotOrEntry(table, addr, index);
  }
}
