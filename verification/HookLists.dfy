/** The temporary hooks of one function type and library: a list next to an atomic counter,
    changed under a write lock, behind one dispatcher thunk. Every atomic access is a step;
    a step that is not enabled does nothing. */
module HookLists {
  import opened Results
  import opened Sums
  import opened LinkedSlabs

  // What the thunk pointer and the `original` pointers refer to. Each list has its own
  // dispatcher.
  datatype Ptr = Trampoline | Dispatcher(d: nat) | StaticThunk(id: nat)

  // The one initializer of `list.original_ptr`: each attempt stores `original` first.
  datatype DispatcherPhase =
    | Absent
    | Claimed
    | Seen(seen: Ptr)
    | Stored(stored: Ptr)
    | Swapped(replaced: Ptr)
    | Published

  // A temporary hook's handle, from `into_unowned_handle` to the end of its drop.
  datatype TempPhase =
    | Created
    | Locked       // holds the write lock
    | Pushed       // in the list
    | Counted      // counter incremented, lock still held
    | Live
    | Dropping     // counter decremented
    | DropLocked   // holds the write lock again
    | Gone

  datatype Temp = Temp(phase: TempPhase, original: Ptr)

  datatype List = List(
    dispatcher: DispatcherPhase,
    dispatcherOriginal: Option<Ptr>,  // the pointer the dispatcher thunk calls
    listOriginal: Option<Ptr>,        // the OnceLock in the closure list
    temps: seq<Temp>,
    list: seq<nat>,                   // the closure list, front first
    writer: Option<nat>,
    extraCount: int)

  datatype TempAction =
    | NewTemp
    | TempLock(k: nat)
    | TempPush(k: nat)
    | TempCount(k: nat)
    | TempUnlock(k: nat)
    | DropCount(k: nat)
    | DropLock(k: nat)
    | DropRemove(k: nat)

  const EMPTY_LIST := List(Absent, None, None, [], [], None, -1)

  predicate TempIn(l: List, k: nat, phase: TempPhase) {
    k < |l.temps| && l.temps[k].phase == phase
  }

  function WithTemp(l: List, k: nat, phase: TempPhase): List
    requires k < |l.temps|
  {
    l.(temps := l.temps[k := l.temps[k].(phase := phase)])
  }

  function TempNext(l: List, a: TempAction): List {
    match a
    case NewTemp =>
      if l.listOriginal.Some? then l.(temps := l.temps + [Temp(Created, l.listOriginal.value)]) else l
    case TempLock(k) =>
      if TempIn(l, k, Created) && l.writer.None? then WithTemp(l, k, Locked).(writer := Some(k)) else l
    case TempPush(k) =>
      if TempIn(l, k, Locked) then WithTemp(l, k, Pushed).(list := [k] + l.list) else l
    case TempCount(k) =>
      if TempIn(l, k, Pushed) then WithTemp(l, k, Counted).(extraCount := l.extraCount + 1) else l
    case TempUnlock(k) =>
      if TempIn(l, k, Counted) then WithTemp(l, k, Live).(writer := None) else l
    case DropCount(k) =>
      if TempIn(l, k, Live) then WithTemp(l, k, Dropping).(extraCount := l.extraCount - 1) else l
    case DropLock(k) =>
      if TempIn(l, k, Dropping) && l.writer.None? then WithTemp(l, k, DropLocked).(writer := Some(k)) else l
    case DropRemove(k) =>
      if TempIn(l, k, DropLocked) then WithTemp(l, k, Gone).(list := Without(l.list, k), writer := None) else l
  }

  predicate IsListed(phase: TempPhase) {
    phase.Pushed? || phase.Counted? || phase.Live? || phase.Dropping? || phase.DropLocked?
  }

  predicate HasLock(phase: TempPhase) {
    phase.Locked? || phase.Pushed? || phase.Counted? || phase.DropLocked?
  }

  // A counted handle whose drop has not begun.
  function CountedHandle(t: Temp): nat {
    if t.phase.Counted? || t.phase.Live? then 1 else 0
  }

  ghost predicate OriginalsOk(l: List) {
    forall k :: 0 <= k < |l.temps| ==> l.listOriginal == Some(l.temps[k].original)
  }

  ghost predicate ListedOk(l: List) {
    && NoRepeats(l.list)
    && forall k: nat :: k in l.list <==> k < |l.temps| && IsListed(l.temps[k].phase)
  }

  ghost predicate WriterOk(l: List) {
    forall k: nat :: l.writer == Some(k) <==> k < |l.temps| && HasLock(l.temps[k].phase)
  }

  predicate CounterOk(l: List) {
    l.extraCount == Sum(l.temps, CountedHandle) - 1
  }

  // A hook not yet counted, or not yet unlocked, is still at the front.
  ghost predicate FrontOk(l: List) {
    forall k: nat :: TempIn(l, k, Pushed) || TempIn(l, k, Counted) ==> |l.list| > 0 && l.list[0] == k
  }

  ghost predicate ListInv(l: List) {
    OriginalsOk(l) && ListedOk(l) && WriterOk(l) && CounterOk(l) && FrontOk(l)
  }

  lemma OneWriter(l: List, j: nat, k: nat)
    requires WriterOk(l) && j < |l.temps| && k < |l.temps|
    requires HasLock(l.temps[j].phase) && HasLock(l.temps[k].phase)
    ensures j == k
  {
  }

  lemma TempNextKeepsFront(l: List, a: TempAction)
    requires ListInv(l)
    ensures FrontOk(TempNext(l, a))
  {
    var l' := TempNext(l, a);
    forall k: nat | TempIn(l', k, Pushed) || TempIn(l', k, Counted) ensures |l'.list| > 0 && l'.list[0] == k {
      if a.TempPush? && TempIn(l, a.k, Locked) {
        if k != a.k { OneWriter(l, a.k, k); }
      } else if a.DropRemove? && TempIn(l, a.k, DropLocked) {
        if k != a.k { OneWriter(l, a.k, k); }
      } else {
        assert TempIn(l, k, Pushed) || TempIn(l, k, Counted);
      }
    }
  }

  lemma TempNextKeepsCounter(l: List, a: TempAction)
    requires CounterOk(l)
    ensures CounterOk(TempNext(l, a))
  {
    var l' := TempNext(l, a);
    if a.NewTemp? {
      if l.listOriginal.Some? { SumAppend(l.temps, CountedHandle, Temp(Created, l.listOriginal.value)); }
    } else if l'.temps != l.temps {
      SumUpdate(l.temps, CountedHandle, a.k, l'.temps[a.k]);
    }
  }

  lemma TempNextKeepsWriter(l: List, a: TempAction)
    requires WriterOk(l)
    ensures WriterOk(TempNext(l, a))
  {
  }

  lemma TempNextKeepsListed(l: List, a: TempAction)
    requires ListedOk(l)
    ensures ListedOk(TempNext(l, a))
  {
    if a.DropRemove? {
      WithoutKeepsOthers(l.list, a.k);
    }
  }

  lemma TempNextKeepsList(l: List, a: TempAction)
    requires ListInv(l)
    ensures ListInv(TempNext(l, a))
  {
    TempNextKeepsFront(l, a);
    TempNextKeepsCounter(l, a);
    TempNextKeepsWriter(l, a);
    TempNextKeepsListed(l, a);
  }

  lemma DispatcherKeepsList(l: List, l': List)
    requires ListInv(l) && OriginalsOk(l')
    requires l'.temps == l.temps && l'.list == l.list && l'.writer == l.writer && l'.extraCount == l.extraCount
    ensures ListInv(l')
  {
    assert forall k: nat, p :: TempIn(l', k, p) <==> TempIn(l, k, p);
  }

  function Pos<T(==)>(xs: seq<T>, x: T): (i: nat)
    ensures i <= |xs| && (i < |xs| ==> xs[i] == x)
    ensures x in xs ==> i < |xs|
  {
    if xs == [] || xs[0] == x then 0 else 1 + Pos(xs[1..], x)
  }

  // ----- what a call passes

  datatype Hook = StaticHook(id: nat) | TempHook(d: nat, k: nat) | DroppedHook(d: nat, k: nat)

  predicate IsDropping(l: List, k: nat) {
    TempIn(l, k, Dropping) || TempIn(l, k, DropLocked)
  }

  // The temporary hooks a call passes from the j-th list entry on: up to one that is being
  // dropped, which is left out if the counter says that nothing is left behind the first.
  function RunningFrom(l: List, d: nat, j: nat): seq<Hook>
    decreases |l.list| - j
  {
    if j >= |l.list| then []
    else if !IsDropping(l, l.list[j]) then [TempHook(d, l.list[j])] + RunningFrom(l, d, j + 1)
    else if j == 0 || l.extraCount > 0 then [DroppedHook(d, l.list[j])]
    else []
  }

  lemma SuccessorIsBehind(list: seq<nat>, k: nat)
    requires NoRepeats(list) && k in list
    ensures Successor(list, k) == if Pos(list, k) + 1 < |list| then Some(list[Pos(list, k) + 1]) else None
    ensures Successor(list, k).Some? ==>
              && Successor(list, k).value in list
              && Pos(list, Successor(list, k).value) == Pos(list, k) + 1
  {
  }

  // `call_original` of a temporary hook: which list entry it continues with, if any.
  // At most one hook counted means nothing is looked up.
  function NextHook(l: List, k: nat): Option<nat> {
    if l.extraCount > 0 then Successor(l.list, k) else None
  }

  // No hook is between its push and its count. Both happen under the write lock, so a call
  // that reads the list never meets such a hook.
  ghost predicate NobodyPushes(l: List) {
    forall k: nat :: !TempIn(l, k, Pushed)
  }

  lemma TwoStandingHooksAreCounted(l: List, j: nat, k: nat)
    requires ListInv(l) && NobodyPushes(l) && j in l.list && k in l.list && j != k
    requires !IsDropping(l, j) && !IsDropping(l, k)
    ensures l.extraCount > 0
  {
    assert !TempIn(l, j, Pushed) && !TempIn(l, k, Pushed);
    assert CountedHandle(l.temps[j]) == 1 && CountedHandle(l.temps[k]) == 1;
    SumOfTwo(l.temps, CountedHandle, if j < k then j else k, if j < k then k else j);
  }

  // Where the lookup leads from a hook that stands, in terms of the list alone.
  lemma NextRunning(l: List, d: nat, j: nat)
    requires ListInv(l) && NobodyPushes(l) && j < |l.list| && (j == 0 || l.extraCount > 0)
    requires !IsDropping(l, l.list[j])
    ensures NextHook(l, l.list[j]) == if l.extraCount > 0 && j + 1 < |l.list| then Some(l.list[j + 1]) else None
    ensures NextHook(l, l.list[j]).None? ==> RunningFrom(l, d, j + 1) == []
  {
    SuccessorAt(l.list, j);
    if l.extraCount <= 0 && j + 1 < |l.list| && !IsDropping(l, l.list[j + 1]) {
      TwoStandingHooksAreCounted(l, l.list[j], l.list[j + 1]);
    }
  }

  lemma {:induction false} AllRun(l: List, d: nat, j: nat)
    requires forall k :: k in l.list ==> !IsDropping(l, k)
    requires j <= |l.list|
    ensures RunningFrom(l, d, j) == seq(|l.list| - j, i requires 0 <= i < |l.list| - j => TempHook(d, l.list[j + i]))
    decreases |l.list| - j
  {
    if j < |l.list| {
      AllRun(l, d, j + 1);
    }
  }

  lemma {:induction false} RunsExactlyWhen(l: List, d: nat, j: nat, k: nat)
    requires NoRepeats(l.list) && k in l.list && !IsDropping(l, k) && j <= Pos(l.list, k)
    ensures TempHook(d, k) in RunningFrom(l, d, j) <==> forall i :: j <= i < Pos(l.list, k) ==> !IsDropping(l, l.list[i])
    decreases |l.list| - j
  {
    if j < Pos(l.list, k) && !IsDropping(l, l.list[j]) {
      RunsExactlyWhen(l, d, j + 1, k);
    }
  }

  // ----- the counter's fast path

  lemma FastPathSkipsOnlyDropping(l: List, k: nat, j: nat)
    requires ListInv(l) && TempIn(l, k, Live) && l.extraCount <= 0 && j in l.list && Pos(l.list, k) < Pos(l.list, j)
    ensures IsDropping(l, j)
  {
    SumOfTwo(l.temps, CountedHandle, if j < k then j else k, if j < k then k else j);
    assert TempIn(l, j, Pushed) ==> Pos(l.list, j) == 0;
  }
}
