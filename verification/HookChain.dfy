/** The hooks of one target: static hooks and the dispatchers of temporary hooks are
    exchanged into the thunk pointer by compare-and-swap; each function type and library
    has a list of temporary hooks and a dispatcher of its own. Every atomic access is a
    step; a step that is not enabled does nothing, so each sequence of actions is an
    interleaving. */
module HookChain {
  import opened Results
  import opened Sums
  import opened LinkedSlabs
  import opened HookLists

  // A `static_hook` call: load, compare-and-swap until it succeeds, fill the OnceLock.
  datatype StaticPhase = Fresh | Loaded(seen: Ptr) | Exchanged(original: Ptr) | Ready(original: Ptr)

  datatype State = State(
    head: Ptr,                 // the thunk pointer
    log: seq<Ptr>,             // history: every pointer exchanged in, newest first
    statics: seq<StaticPhase>,
    lists: seq<List>)

  datatype Action =
    | NewStatic
    | StaticLoad(id: nat)
    | StaticCas(id: nat, spurious: bool)
    | StaticReady(id: nat)
    | NewList
    | DispatcherClaim(d: nat)
    | DispatcherLoad(d: nat)
    | DispatcherStore(d: nat)
    | DispatcherCas(d: nat, spurious: bool)
    | DispatcherPublish(d: nat)
    | OnList(d: nat, step: TempAction)

  function Init(): State {
    State(Trampoline, [], [], [])
  }

  function StaticNext(s: State, a: Action): State
    requires a.StaticLoad? || a.StaticCas? || a.StaticReady?
  {
    if a.id >= |s.statics| then s else
      match (a, s.statics[a.id])
      case (StaticLoad(id), Fresh) => s.(statics := s.statics[id := Loaded(s.head)])
      case (StaticCas(id, spurious), Loaded(seen)) =>
        if s.head == seen && !spurious then
          s.(head := StaticThunk(id), log := [StaticThunk(id)] + s.log, statics := s.statics[id := Exchanged(seen)])
        else s.(statics := s.statics[id := Loaded(s.head)])
      case (StaticReady(id), Exchanged(original)) => s.(statics := s.statics[id := Ready(original)])
      case _ => s
  }

  function WithList(s: State, d: nat, l: List): State
    requires d < |s.lists|
  {
    s.(lists := s.lists[d := l])
  }

  function DispatcherNext(s: State, a: Action): State
    requires a.DispatcherClaim? || a.DispatcherLoad? || a.DispatcherStore? || a.DispatcherCas? || a.DispatcherPublish?
  {
    if a.d >= |s.lists| then s else
      var (d, l) := (a.d, s.lists[a.d]);
      match (a, l.dispatcher)
      case (DispatcherClaim(_), Absent) => WithList(s, d, l.(dispatcher := Claimed))
      case (DispatcherLoad(_), Claimed) => WithList(s, d, l.(dispatcher := Seen(s.head)))
      case (DispatcherStore(_), Seen(seen)) =>
        WithList(s, d, l.(dispatcher := Stored(seen), dispatcherOriginal := Some(seen)))
      case (DispatcherCas(_, spurious), Stored(seen)) =>
        if s.head == seen && !spurious then
          WithList(s, d, l.(dispatcher := Swapped(seen))).(head := Dispatcher(d), log := [Dispatcher(d)] + s.log)
        else WithList(s, d, l.(dispatcher := Seen(s.head)))
      case (DispatcherPublish(_), Swapped(replaced)) =>
        WithList(s, d, l.(dispatcher := Published, listOriginal := Some(replaced)))
      case _ => s
  }

  function Next(s: State, a: Action): State {
    match a
    case NewStatic => s.(statics := s.statics + [Fresh])
    case StaticLoad(_) => StaticNext(s, a)
    case StaticCas(_, _) => StaticNext(s, a)
    case StaticReady(_) => StaticNext(s, a)
    case NewList => s.(lists := s.lists + [EMPTY_LIST])
    case OnList(d, step) => if d < |s.lists| then WithList(s, d, TempNext(s.lists[d], step)) else s
    case _ => DispatcherNext(s, a)
  }

  function Run(s: State, acts: seq<Action>): State
    decreases |acts|
  {
    if acts == [] then s else Run(Next(s, acts[0]), acts[1..])
  }

  // ----- the chain of `original` pointers

  function PtrAt(log: seq<Ptr>, i: nat): Ptr {
    if i < |log| then log[i] else Trampoline
  }

  predicate StaticInstalled(s: State, id: nat) {
    id < |s.statics| && (s.statics[id].Exchanged? || s.statics[id].Ready?)
  }

  predicate DispatcherInstalled(s: State, d: nat) {
    d < |s.lists| && (s.lists[d].dispatcher.Swapped? || s.lists[d].dispatcher.Published?)
  }

  // Where a hook's `call_original` goes once the hook is installed.
  function OriginalOf(s: State, p: Ptr): Option<Ptr> {
    match p
    case StaticThunk(id) => if StaticInstalled(s, id) then Some(s.statics[id].original) else None
    case Dispatcher(d) => if DispatcherInstalled(s, d) then s.lists[d].dispatcherOriginal else None
    case Trampoline => None
  }

  // The i-th newest pointer calls exactly the pointer it replaced.
  ghost predicate ReplacedIsOriginal(s: State, i: nat) {
    i < |s.log| ==> OriginalOf(s, s.log[i]) == Some(PtrAt(s.log, i + 1))
  }

  predicate OriginalStored(l: List) {
    && (l.dispatcher.Stored? ==> l.dispatcherOriginal == Some(l.dispatcher.stored))
    && (l.dispatcher.Swapped? ==> l.dispatcherOriginal == Some(l.dispatcher.replaced))
    && (l.listOriginal.Some? <==> l.dispatcher.Published?)
    && (l.dispatcher.Published? ==> l.listOriginal == l.dispatcherOriginal)
  }

  ghost predicate ChainInv(s: State) {
    && s.head == PtrAt(s.log, 0)
    && Trampoline !in s.log
    && (forall i, j :: 0 <= i < j < |s.log| ==> s.log[i] != s.log[j])
    && (forall id: nat :: StaticThunk(id) in s.log <==> StaticInstalled(s, id))
    && (forall d: nat :: Dispatcher(d) in s.log <==> DispatcherInstalled(s, d))
    && (forall i: nat {:trigger ReplacedIsOriginal(s, i)} :: ReplacedIsOriginal(s, i))
    && (forall d :: 0 <= d < |s.lists| ==> OriginalStored(s.lists[d]))
  }

  lemma ExchangeKeepsChain(s: State, s': State, p: Ptr)
    requires ChainInv(s) && p !in s.log && p != Trampoline
    requires s'.log == [p] + s.log && s'.head == p
    requires OriginalOf(s', p) == Some(s.head)
    requires forall q :: q in s.log ==> OriginalOf(s', q) == OriginalOf(s, q)
    ensures Trampoline !in s'.log
    ensures forall i, j :: 0 <= i < j < |s'.log| ==> s'.log[i] != s'.log[j]
    ensures forall i: nat :: ReplacedIsOriginal(s', i)
    ensures forall q :: q in s'.log <==> q == p || q in s.log
  {
    forall i: nat ensures ReplacedIsOriginal(s', i) {
      if 0 < i < |s'.log| {
        assert ReplacedIsOriginal(s, i - 1);
        assert s'.log[i] == s.log[i - 1] && s.log[i - 1] in s.log;
      }
    }
  }

  lemma SameLogKeepsChain(s: State, s': State)
    requires ChainInv(s) && s'.log == s.log
    requires forall q :: q in s.log ==> OriginalOf(s', q) == OriginalOf(s, q)
    ensures forall i: nat :: ReplacedIsOriginal(s', i)
  {
    forall i: nat ensures ReplacedIsOriginal(s', i) {
      if i < |s.log| {
        assert ReplacedIsOriginal(s, i);
        assert s.log[i] in s.log;
      }
    }
  }

  lemma StaticNextKeepsChain(s: State, a: Action)
    requires ChainInv(s) && (a.StaticLoad? || a.StaticCas? || a.StaticReady?)
    ensures ChainInv(StaticNext(s, a))
  {
    var s' := StaticNext(s, a);
    if s' != s {
      if |s'.log| > |s.log| {
        ExchangeKeepsChain(s, s', StaticThunk(a.id));
      } else {
        SameLogKeepsChain(s, s');
      }
    }
  }

  lemma DispatcherNextKeepsChain(s: State, a: Action)
    requires ChainInv(s)
    requires a.DispatcherClaim? || a.DispatcherLoad? || a.DispatcherStore? || a.DispatcherCas? || a.DispatcherPublish?
    ensures ChainInv(DispatcherNext(s, a))
  {
    var s' := DispatcherNext(s, a);
    if |s'.log| > |s.log| {
      DispatcherCasKeepsChain(s, a);
    } else {
      SameLogKeepsChain(s, s');
    }
  }

  lemma DispatcherCasKeepsChain(s: State, a: Action)
    requires ChainInv(s) && a.DispatcherCas? && |DispatcherNext(s, a).log| > |s.log|
    ensures ChainInv(DispatcherNext(s, a))
  {
    ExchangeKeepsChain(s, DispatcherNext(s, a), Dispatcher(a.d));
  }

  lemma GrowingKeepsChain(s: State, a: Action)
    requires ChainInv(s) && (a.NewStatic? || a.NewList?)
    ensures ChainInv(Next(s, a))
  {
    SameLogKeepsChain(s, Next(s, a));
  }

  lemma OnListKeepsChain(s: State, a: Action)
    requires ChainInv(s) && a.OnList?
    ensures ChainInv(Next(s, a))
  {
    SameLogKeepsChain(s, Next(s, a));
  }

  lemma NextKeepsChain(s: State, a: Action)
    requires ChainInv(s)
    ensures ChainInv(Next(s, a))
  {
    if a.StaticLoad? || a.StaticCas? || a.StaticReady? {
      StaticNextKeepsChain(s, a);
    } else if a.NewStatic? || a.NewList? {
      GrowingKeepsChain(s, a);
    } else if a.OnList? {
      OnListKeepsChain(s, a);
    } else {
      DispatcherNextKeepsChain(s, a);
    }
  }

  ghost predicate Inv(s: State) {
    && ChainInv(s)
    && forall d :: 0 <= d < |s.lists| ==> ListInv(s.lists[d])
  }

  lemma DispatcherNextKeepsLists(s: State, a: Action, d: nat)
    requires Inv(s) && d < |s.lists|
    requires a.DispatcherClaim? || a.DispatcherLoad? || a.DispatcherStore? || a.DispatcherCas? || a.DispatcherPublish?
    ensures |DispatcherNext(s, a).lists| == |s.lists| && ListInv(DispatcherNext(s, a).lists[d])
  {
    DispatcherKeepsList(s.lists[d], DispatcherNext(s, a).lists[d]);
  }

  lemma NextKeepsLists(s: State, a: Action)
    requires Inv(s)
    ensures forall d :: 0 <= d < |Next(s, a).lists| ==> ListInv(Next(s, a).lists[d])
  {
    if a.OnList? {
      if a.d < |s.lists| { TempNextKeepsList(s.lists[a.d], a.step); }
    } else if a.NewStatic? || a.NewList? || a.StaticLoad? || a.StaticCas? || a.StaticReady? {
    } else {
      forall d | 0 <= d < |s.lists| ensures |Next(s, a).lists| == |s.lists| && ListInv(Next(s, a).lists[d]) {
        DispatcherNextKeepsLists(s, a, d);
      }
    }
  }

  lemma NextKeepsInv(s: State, a: Action)
    requires Inv(s)
    ensures Inv(Next(s, a))
  {
    NextKeepsChain(s, a);
    NextKeepsLists(s, a);
  }

  lemma {:induction false} RunKeepsInv(s: State, acts: seq<Action>)
    requires Inv(s)
    ensures Inv(Run(s, acts))
    decreases |acts|
  {
    if acts != [] {
      NextKeepsInv(s, acts[0]);
      RunKeepsInv(Next(s, acts[0]), acts[1..]);
    }
  }

  // ----- what a call means

  // A hook body turns the function it calls as its original into the hooked function. A
  // temporary hook whose handle is being dropped can no longer reach its original.
  datatype Bodies<!F> = Bodies(static_: nat -> F -> F, temporary: (nat, nat) -> F -> F, dropped: (nat, nat) -> F)

  function Body<F>(bodies: Bodies<F>, hook: Hook): F -> F {
    match hook
    case StaticHook(id) => bodies.static_(id)
    case TempHook(d, k) => bodies.temporary(d, k)
    case DroppedHook(d, k) => (original: F) => bodies.dropped(d, k)
  }

  // The specification: each hook applied to what follows it.
  function Compose<F>(hooks: seq<Hook>, bodies: Bodies<F>, trampoline: F): F {
    if hooks == [] then trampoline
    else Body(bodies, hooks[0])(Compose(hooks[1..], bodies, trampoline))
  }

  function TempHooks(lists: seq<List>, d: nat): seq<Hook> {
    if d < |lists| then RunningFrom(lists[d], d, 0) else []
  }

  // Newest first; each list's hooks stand where its dispatcher was exchanged in.
  function Hooks(log: seq<Ptr>, lists: seq<List>): seq<Hook> {
    if log == [] then []
    else
      (match log[0]
       case Trampoline => []
       case StaticThunk(id) => [StaticHook(id)]
       case Dispatcher(d) => TempHooks(lists, d))
      + Hooks(log[1..], lists)
  }

  // The pointer a thunk calls lies behind it in the log.
  lemma OriginalIsBehind(s: State, p: Ptr)
    requires ChainInv(s) && p in s.log
    ensures OriginalOf(s, p) == Some(PtrAt(s.log, Pos(s.log, p) + 1))
    ensures
      var o := OriginalOf(s, p).value;
      o == Trampoline || (o in s.log && Pos(s.log, o) == Pos(s.log, p) + 1)
  {
    var i := Pos(s.log, p);
    assert ReplacedIsOriginal(s, i);
    if i + 1 < |s.log| {
      var o := s.log[i + 1];
      assert o in s.log && s.log[Pos(s.log, o)] == o;
    }
  }

  /** The function reached through a pointer, following the pointers as stored. */
  ghost function Meaning<F>(s: State, p: Ptr, bodies: Bodies<F>, trampoline: F): F
    requires Inv(s) && (p == Trampoline || p in s.log)
    decreases |s.log| - Pos(s.log, p), if p.Dispatcher? && p.d < |s.lists| then |s.lists[p.d].list| + 1 else 0
  {
    match p
    case Trampoline => trampoline
    case StaticThunk(id) =>
      OriginalIsBehind(s, p);
      bodies.static_(id)(Meaning(s, OriginalOf(s, p).value, bodies, trampoline))
    case Dispatcher(d) =>
      OriginalIsBehind(s, p);
      var l := s.lists[d];
      if l.list == [] then Meaning(s, l.dispatcherOriginal.value, bodies, trampoline)
      else TempMeaning(s, d, l.list[0], bodies, trampoline)
  }

  ghost function TempMeaning<F>(s: State, d: nat, k: nat, bodies: Bodies<F>, trampoline: F): F
    requires Inv(s) && Dispatcher(d) in s.log && d < |s.lists| && k in s.lists[d].list
    decreases |s.log| - Pos(s.log, Dispatcher(d)), |s.lists[d].list| - Pos(s.lists[d].list, k)
  {
    var l := s.lists[d];
    SuccessorIsBehind(l.list, k);
    OriginalIsBehind(s, Dispatcher(d));
    if IsDropping(l, k) then bodies.dropped(d, k)
    else
      var original :=
        match NextHook(l, k)
        case Some(n) => TempMeaning(s, d, n, bodies, trampoline)
        case None => Meaning(s, l.temps[k].original, bodies, trampoline);
      bodies.temporary(d, k)(original)
  }

  lemma {:induction false} ComposeConcat<F>(a: seq<Hook>, b: seq<Hook>, bodies: Bodies<F>, trampoline: F)
    ensures Compose(a + b, bodies, trampoline) == Compose(a, bodies, Compose(b, bodies, trampoline))
  {
    if a == [] {
      assert a + b == b;
    } else {
      assert (a + b)[1..] == a[1..] + b;
      ComposeConcat(a[1..], b, bodies, trampoline);
    }
  }

  // One hook of the specification, and one hook of the call.
  lemma RunningStep<F>(l: List, d: nat, j: nat, bodies: Bodies<F>, base: F)
    requires j < |l.list| && (j == 0 || l.extraCount > 0)
    ensures
      Compose(RunningFrom(l, d, j), bodies, base) ==
      if IsDropping(l, l.list[j]) then bodies.dropped(d, l.list[j])
      else bodies.temporary(d, l.list[j])(Compose(RunningFrom(l, d, j + 1), bodies, base))
  {
    assert !IsDropping(l, l.list[j]) ==> RunningFrom(l, d, j)[1..] == RunningFrom(l, d, j + 1);
  }

  // The dispatcher is installed: what it calls lies behind it.
  ghost predicate Installed(s: State, d: nat) {
    && Inv(s) && d < |s.lists| && Dispatcher(d) in s.log
    && s.lists[d].dispatcherOriginal.Some?
    && (s.lists[d].dispatcherOriginal.value == Trampoline || s.lists[d].dispatcherOriginal.value in s.log)
  }

  ghost function Behind<F>(s: State, d: nat, bodies: Bodies<F>, trampoline: F): F
    requires Installed(s, d)
  {
    Meaning(s, s.lists[d].dispatcherOriginal.value, bodies, trampoline)
  }

  lemma TempMeaningStep<F>(s: State, d: nat, k: nat, bodies: Bodies<F>, trampoline: F)
    requires Installed(s, d) && k in s.lists[d].list
    ensures NextHook(s.lists[d], k).Some? ==> NextHook(s.lists[d], k).value in s.lists[d].list
    ensures
      TempMeaning(s, d, k, bodies, trampoline) ==
      if IsDropping(s.lists[d], k) then bodies.dropped(d, k)
      else bodies.temporary(d, k)(
        match NextHook(s.lists[d], k)
        case Some(n) => TempMeaning(s, d, n, bodies, trampoline)
        case None => Behind(s, d, bodies, trampoline))
  {
    SuccessorIsBehind(s.lists[d].list, k);
    OriginalIsBehind(s, Dispatcher(d));
  }

  lemma TempMeaningAt<F>(s: State, d: nat, j: nat, bodies: Bodies<F>, trampoline: F)
    requires Installed(s, d) && NobodyPushes(s.lists[d]) && j < |s.lists[d].list| && (j == 0 || s.lists[d].extraCount > 0)
    ensures
      var l := s.lists[d];
      TempMeaning(s, d, l.list[j], bodies, trampoline) ==
      if IsDropping(l, l.list[j]) then bodies.dropped(d, l.list[j])
      else bodies.temporary(d, l.list[j])(
        if l.extraCount > 0 && j + 1 < |l.list| then TempMeaning(s, d, l.list[j + 1], bodies, trampoline)
        else Behind(s, d, bodies, trampoline))
    ensures
      var l := s.lists[d];
      !IsDropping(l, l.list[j]) && !(l.extraCount > 0 && j + 1 < |l.list|) ==> RunningFrom(l, d, j + 1) == []
  {
    var l := s.lists[d];
    TempMeaningStep(s, d, l.list[j], bodies, trampoline);
    if !IsDropping(l, l.list[j]) {
      NextRunning(l, d, j);
    }
  }

  lemma {:induction false} TempMeaningIsComposition<F>(s: State, d: nat, j: nat, bodies: Bodies<F>, trampoline: F)
    requires Installed(s, d) && NobodyPushes(s.lists[d]) && j < |s.lists[d].list| && (j == 0 || s.lists[d].extraCount > 0)
    ensures TempMeaning(s, d, s.lists[d].list[j], bodies, trampoline)
            == Compose(RunningFrom(s.lists[d], d, j), bodies, Behind(s, d, bodies, trampoline))
    decreases |s.lists[d].list| - j
  {
    var l := s.lists[d];
    TempMeaningAt(s, d, j, bodies, trampoline);
    RunningStep(l, d, j, bodies, Behind(s, d, bodies, trampoline));
    if !IsDropping(l, l.list[j]) && l.extraCount > 0 && j + 1 < |l.list| {
      TempMeaningIsComposition(s, d, j + 1, bodies, trampoline);
    }
  }

  // One exchanged pointer of the call, and one of the specification.
  lemma MeaningStep<F>(s: State, i: nat, bodies: Bodies<F>, trampoline: F)
    requires Inv(s) && i < |s.log|
    ensures s.log[i] in s.log && s.log[i] != Trampoline
    ensures PtrAt(s.log, i + 1) == Trampoline || PtrAt(s.log, i + 1) in s.log
    ensures s.log[i].Dispatcher? ==>
              Installed(s, s.log[i].d) && s.lists[s.log[i].d].dispatcherOriginal == Some(PtrAt(s.log, i + 1))
    ensures
      var behind := Meaning(s, PtrAt(s.log, i + 1), bodies, trampoline);
      Meaning(s, s.log[i], bodies, trampoline) ==
      match s.log[i]
      case Trampoline => trampoline
      case StaticThunk(id) => bodies.static_(id)(behind)
      case Dispatcher(d) =>
        if s.lists[d].list == [] then behind else TempMeaning(s, d, s.lists[d].list[0], bodies, trampoline)
  {
    assert ReplacedIsOriginal(s, i);
    OriginalIsBehind(s, s.log[i]);
  }

  lemma {:induction false} HooksStep<F>(log: seq<Ptr>, i: nat, lists: seq<List>, bodies: Bodies<F>, trampoline: F)
    requires i < |log|
    ensures
      var rest := Hooks(log[i + 1..], lists);
      Compose(Hooks(log[i..], lists), bodies, trampoline) ==
      match log[i]
      case Trampoline => Compose(rest, bodies, trampoline)
      case StaticThunk(id) => bodies.static_(id)(Compose(rest, bodies, trampoline))
      case Dispatcher(d) => Compose(TempHooks(lists, d), bodies, Compose(rest, bodies, trampoline))
  {
    assert log[i..][1..] == log[i + 1..];
    var rest := Hooks(log[i + 1..], lists);
    if log[i].StaticThunk? {
      assert ([StaticHook(log[i].id)] + rest)[1..] == rest;
    } else if log[i].Dispatcher? {
      ComposeConcat(TempHooks(lists, log[i].d), rest, bodies, trampoline);
    } else {
      assert [] + rest == rest;
    }
  }

  // A call reads no list in the locked moment between a push and its count.
  ghost predicate Readable(s: State) {
    forall d :: 0 <= d < |s.lists| ==> NobodyPushes(s.lists[d])
  }

  lemma {:induction false} SuffixMeaning<F>(s: State, i: nat, bodies: Bodies<F>, trampoline: F)
    requires Inv(s) && Readable(s) && i <= |s.log|
    ensures PtrAt(s.log, i) == Trampoline || PtrAt(s.log, i) in s.log
    ensures Meaning(s, PtrAt(s.log, i), bodies, trampoline) == Compose(Hooks(s.log[i..], s.lists), bodies, trampoline)
    decreases |s.log| - i
  {
    if i == |s.log| {
      assert s.log[i..] == [];
    } else {
      MeaningStep(s, i, bodies, trampoline);
      HooksStep(s.log, i, s.lists, bodies, trampoline);
      SuffixMeaning(s, i + 1, bodies, trampoline);
      if s.log[i].Dispatcher? && s.lists[s.log[i].d].list != [] {
        TempMeaningIsComposition(s, s.log[i].d, 0, bodies, trampoline);
      }
    }
  }

  /** Whatever the interleaving of installs, swaps, pushes and drops: a call to the target
      is the composition of the hooks newest first - static hooks and, where a dispatcher
      was exchanged in, the temporary hooks of its list, newest first, up to one that is
      being dropped - around the trampoline. If no hook of a list is being dropped, these
      are all of its hooks. */
  lemma CallIsComposition<F>(acts: seq<Action>, bodies: Bodies<F>, trampoline: F)
    requires Readable(Run(Init(), acts))
    ensures Inv(Run(Init(), acts))
    ensures
      var s := Run(Init(), acts);
      && (s.head == Trampoline || s.head in s.log)
      && Meaning(s, s.head, bodies, trampoline) == Compose(Hooks(s.log, s.lists), bodies, trampoline)
      && forall d :: 0 <= d < |s.lists| && (forall k :: k in s.lists[d].list ==> !IsDropping(s.lists[d], k)) ==>
           TempHooks(s.lists, d) == seq(|s.lists[d].list|, i requires 0 <= i < |s.lists[d].list| => TempHook(d, s.lists[d].list[i]))
  {
    RunKeepsInv(Init(), acts);
    var s := Run(Init(), acts);
    SuffixMeaning(s, 0, bodies, trampoline);
    assert s.log[0..] == s.log;
    forall d | 0 <= d < |s.lists| && (forall k :: k in s.lists[d].list ==> !IsDropping(s.lists[d], k))
      ensures TempHooks(s.lists, d) == seq(|s.lists[d].list|, i requires 0 <= i < |s.lists[d].list| => TempHook(d, s.lists[d].list[i]))
    {
      AllRun(s.lists[d], d, 0);
    }
  }

  // ----- which live hooks a call passes

  // Hook `k` of list `d` is live in a state in which the lists can be read.
  ghost predicate LiveIn(s: State, d: nat, k: nat) {
    d < |s.lists| && NobodyPushes(s.lists[d]) && TempIn(s.lists[d], k, Live)
  }

  /** The counter's fast path never hides a live hook: it is passed by every call that
      reaches its dispatcher unless a hook in front of it is being dropped. */
  lemma LiveHookRunsExactlyWhen(acts: seq<Action>, d: nat, k: nat)
    requires LiveIn(Run(Init(), acts), d, k)
    ensures
      var l := Run(Init(), acts).lists[d];
      TempHook(d, k) in RunningFrom(l, d, 0) <==> forall j :: 0 <= j < Pos(l.list, k) ==> !IsDropping(l, l.list[j])
  {
    RunKeepsInv(Init(), acts);
    RunsExactlyWhen(Run(Init(), acts).lists[d], d, 0, k);
  }

  lemma {:induction false} RunConcat(s: State, acts: seq<Action>, more: seq<Action>)
    ensures Run(s, acts + more) == Run(Run(s, acts), more)
    decreases |acts|
  {
    if acts == [] {
      assert acts + more == more;
    } else {
      assert (acts + more)[1..] == acts[1..] + more;
      RunConcat(Next(s, acts[0]), acts[1..], more);
    }
  }

  // One more step of a run from the start.
  lemma Then(acts: seq<Action>, a: Action) returns (more: seq<Action>)
    ensures Run(Init(), more) == Next(Run(Init(), acts), a)
  {
    more := acts + [a];
    RunConcat(Init(), acts, [a]);
    assert [a][1..] == [];
    assert Run(Run(Init(), acts), [a]) == Run(Next(Run(Init(), acts), a), []);
  }

  const PUBLISHED := List(Published, Some(Trampoline), Some(Trampoline), [], [], None, -1)

  lemma InstallDispatcher() returns (acts: seq<Action>)
    ensures Run(Init(), acts) ==
            State(Dispatcher(0), [Dispatcher(0)], [], [PUBLISHED])
  {
    acts := Then([], NewList);
    acts := Then(acts, DispatcherClaim(0));
    acts := Then(acts, DispatcherLoad(0));
    acts := Then(acts, DispatcherStore(0));
    acts := Then(acts, DispatcherCas(0, false));
    acts := Then(acts, DispatcherPublish(0));
  }

  // A step of the only list.
  lemma ThenOnList(acts: seq<Action>, step: TempAction) returns (more: seq<Action>)
    requires |Run(Init(), acts).lists| == 1
    ensures Run(Init(), more) == Run(Init(), acts).(lists := [TempNext(Run(Init(), acts).lists[0], step)])
  {
    more := Then(acts, OnList(0, step));
  }

  function WithAnother(l: List): List {
    var k := |l.temps|;
    TempNext(TempNext(TempNext(TempNext(TempNext(l, NewTemp), TempLock(k)), TempPush(k)), TempCount(k)), TempUnlock(k))
  }

  lemma PushAnother(before: seq<Action>) returns (acts: seq<Action>)
    requires |Run(Init(), before).lists| == 1
    ensures Run(Init(), acts) == Run(Init(), before).(lists := [WithAnother(Run(Init(), before).lists[0])])
  {
    var k := |Run(Init(), before).lists[0].temps|;
    acts := ThenOnList(before, NewTemp);
    acts := ThenOnList(acts, TempLock(k));
    acts := ThenOnList(acts, TempPush(k));
    acts := ThenOnList(acts, TempCount(k));
    acts := ThenOnList(acts, TempUnlock(k));
  }

  lemma AnotherIsLive(l: List)
    requires l.listOriginal.Some? && l.writer.None?
    ensures WithAnother(l) == l.(temps := l.temps + [Temp(Live, l.listOriginal.value)], list := [|l.temps|] + l.list,
                                 extraCount := l.extraCount + 1)
  {
  }

  /** The failing input: two temporary hooks are installed and the drop of the newer one has
      begun. A call meets it first and never reaches the older one, which is live. */
  lemma DroppingHookHidesLiveOne() returns (acts: seq<Action>)
    ensures
      var s := Run(Init(), acts);
      && LiveIn(s, 0, 0) && s.head == Dispatcher(0)
      && Hooks(s.log, s.lists) == [DroppedHook(0, 1)]
  {
    acts := InstallDispatcher();
    acts := PushAnother(acts);
    acts := PushAnother(acts);
    acts := ThenOnList(acts, DropCount(1));
    NewerIsDropping();
    FrontHidesTheRest(NEWER_DROPPING, 0);
    assert Run(Init(), acts).log[1..] == [];
  }

  const NEWER_DROPPING :=
    List(Published, Some(Trampoline), Some(Trampoline), [Temp(Live, Trampoline), Temp(Dropping, Trampoline)], [1, 0], None, 0)

  lemma NewerIsDropping()
    ensures TempNext(WithAnother(WithAnother(PUBLISHED)), DropCount(1)) == NEWER_DROPPING
  {
    TwoAreLive();
    var live := Temp(Live, Trampoline);
    assert [live, live][1 := live.(phase := Dropping)] == NEWER_DROPPING.temps;
  }

  lemma TwoAreLive()
    ensures
      var live := Temp(Live, Trampoline);
      WithAnother(WithAnother(PUBLISHED)) == PUBLISHED.(temps := [live, live], list := [1, 0], extraCount := 1)
  {
    var one := PUBLISHED.(temps := [Temp(Live, Trampoline)], list := [0], extraCount := 0);
    AnotherIsLive(PUBLISHED);
    assert WithAnother(PUBLISHED) == one;
    AnotherIsLive(one);
  }

  lemma FrontHidesTheRest(l: List, d: nat)
    requires l.list != [] && IsDropping(l, l.list[0])
    ensures RunningFrom(l, d, 0) == [DroppedHook(d, l.list[0])]
  {
  }

  // ----- hooks do get installed

  // The hook that `p` stands for has been put in front of all others, and nothing else changed
  // in the chain.
  ghost predicate PutInFront(s: State, s': State, p: Ptr) {
    && s'.head == p && s'.log == [p] + s.log
    && OriginalOf(s', p) == Some(s.head)
    && forall q :: q in s.log ==> OriginalOf(s', q) == OriginalOf(s, q)
  }

  /** A static hook's exchange succeeds exactly if the pointer is still the one it loaded and
      the failure is not spurious. Then every call runs it first, before what calls ran so
      far; otherwise it has loaded the current pointer and may try again. */
  lemma StaticExchange(acts: seq<Action>, id: nat, spurious: bool)
    requires
      var s := Run(Init(), acts);
      id < |s.statics| && s.statics[id].Loaded?
    ensures
      var s := Run(Init(), acts);
      var s' := Next(s, StaticCas(id, spurious));
      if s.statics[id].seen == s.head && !spurious then
        && PutInFront(s, s', StaticThunk(id)) && s'.statics[id] == Exchanged(s.head)
        && Hooks(s'.log, s'.lists) == [StaticHook(id)] + Hooks(s.log, s.lists)
      else s' == s.(statics := s.statics[id := Loaded(s.head)])
  {
    RunKeepsInv(Init(), acts);
    var s := Run(Init(), acts);
    assert ([StaticThunk(id)] + s.log)[1..] == s.log;
  }

  /** From any reachable state a static hook is installed in four steps, if nobody comes
      between them. */
  lemma StaticHookIsInstalled(acts: seq<Action>)
    ensures
      var s := Run(Init(), acts);
      var id := |s.statics|;
      var s' := Run(s, [NewStatic, StaticLoad(id), StaticCas(id, false), StaticReady(id)]);
      && PutInFront(s, s', StaticThunk(id)) && s'.statics == s.statics + [Ready(s.head)]
      && Hooks(s'.log, s'.lists) == [StaticHook(id)] + Hooks(s.log, s.lists)
  {
    var s := Run(Init(), acts);
    var id := |s.statics|;
    RunKeepsInv(Init(), acts);
    FourSteps(s, NewStatic, StaticLoad(id), StaticCas(id, false), StaticReady(id));
    var loaded := s.(statics := s.statics + [Loaded(s.head)]);
    assert Next(Next(s, NewStatic), StaticLoad(id)) == loaded;
    var exchanged := Next(loaded, StaticCas(id, false));
    assert exchanged == s.(head := StaticThunk(id), log := [StaticThunk(id)] + s.log, statics := s.statics + [Exchanged(s.head)]);
    assert Next(exchanged, StaticReady(id)) == exchanged.(statics := s.statics + [Ready(s.head)]);
    assert ([StaticThunk(id)] + s.log)[1..] == s.log;
  }

  lemma FourSteps(s: State, a: Action, b: Action, c: Action, d: Action)
    ensures Run(s, [a, b, c, d]) == Next(Next(Next(Next(s, a), b), c), d)
  {
    assert [a, b, c, d][1..] == [b, c, d] && [b, c, d][1..] == [c, d] && [c, d][1..] == [d] && [d][1..] == [];
    var (s1, s2, s3) := (Next(s, a), Next(Next(s, a), b), Next(Next(Next(s, a), b), c));
    assert Run(s, [a, b, c, d]) == Run(s1, [b, c, d]);
    assert Run(s1, [b, c, d]) == Run(s2, [c, d]);
    assert Run(s2, [c, d]) == Run(s3, [d]);
    assert Run(s3, [d]) == Run(Next(s3, d), []);
  }

  /** The same for a dispatcher, whose `original` is in place before the exchange. */
  lemma DispatcherExchange(acts: seq<Action>, d: nat, spurious: bool)
    requires
      var s := Run(Init(), acts);
      d < |s.lists| && s.lists[d].dispatcher.Stored?
    ensures
      var s := Run(Init(), acts);
      var s' := Next(s, DispatcherCas(d, spurious));
      if s.lists[d].dispatcher.stored == s.head && !spurious then
        && PutInFront(s, s', Dispatcher(d)) && s'.lists == s.lists[d := s.lists[d].(dispatcher := Swapped(s.head))]
        && Hooks(s'.log, s'.lists) == TempHooks(s'.lists, d) + Hooks(s.log, s'.lists)
      else s' == WithList(s, d, s.lists[d].(dispatcher := Seen(s.head)))
  {
    RunKeepsInv(Init(), acts);
    var s := Run(Init(), acts);
    assert OriginalStored(s.lists[d]);
    assert ([Dispatcher(d)] + s.log)[1..] == s.log;
  }

  /** From any reachable state the dispatcher of a fresh list is published in four steps
      after it was claimed, if nobody comes between them. */
  lemma DispatcherIsInstalled(acts: seq<Action>, d: nat)
    requires
      var s := Run(Init(), acts);
      d < |s.lists| && s.lists[d].dispatcher.Claimed?
    ensures
      var s := Run(Init(), acts);
      var s' := Run(s, [DispatcherLoad(d), DispatcherStore(d), DispatcherCas(d, false), DispatcherPublish(d)]);
      && PutInFront(s, s', Dispatcher(d))
      && s'.lists == s.lists[d := s.lists[d].(dispatcher := Published, dispatcherOriginal := Some(s.head), listOriginal := Some(s.head))]
  {
    RunKeepsInv(Init(), acts);
    PublishingSteps(Run(Init(), acts), d);
    PublishedInFront(Run(Init(), acts), d);
  }

  ghost function WithPublished(s: State, d: nat): State
    requires d < |s.lists|
  {
    var l := s.lists[d].(dispatcher := Published, dispatcherOriginal := Some(s.head), listOriginal := Some(s.head));
    WithList(s, d, l).(head := Dispatcher(d), log := [Dispatcher(d)] + s.log)
  }

  lemma PublishingSteps(s: State, d: nat)
    requires d < |s.lists| && s.lists[d].dispatcher.Claimed?
    ensures Run(s, [DispatcherLoad(d), DispatcherStore(d), DispatcherCas(d, false), DispatcherPublish(d)]) == WithPublished(s, d)
  {
    var l := s.lists[d];
    FourSteps(s, DispatcherLoad(d), DispatcherStore(d), DispatcherCas(d, false), DispatcherPublish(d));
    var seen := WithList(s, d, l.(dispatcher := Seen(s.head)));
    assert Next(s, DispatcherLoad(d)) == seen;
    var stored := WithList(s, d, l.(dispatcher := Stored(s.head), dispatcherOriginal := Some(s.head)));
    assert Next(seen, DispatcherStore(d)) == stored;
    var swapped := WithList(s, d, l.(dispatcher := Swapped(s.head), dispatcherOriginal := Some(s.head)))
                   .(head := Dispatcher(d), log := [Dispatcher(d)] + s.log);
    assert Next(stored, DispatcherCas(d, false)) == swapped;
    assert Next(swapped, DispatcherPublish(d)) == WithPublished(s, d);
  }

  lemma PublishedInFront(s: State, d: nat)
    requires Inv(s) && d < |s.lists| && s.lists[d].dispatcher.Claimed?
    ensures PutInFront(s, WithPublished(s, d), Dispatcher(d))
  {
    assert Dispatcher(d) !in s.log;
  }

  function OnLists(d: nat, steps: seq<TempAction>): seq<Action> {
    seq(|steps|, i requires 0 <= i < |steps| => OnList(d, steps[i]))
  }

  function TempRun(l: List, steps: seq<TempAction>): List
    decreases |steps|
  {
    if steps == [] then l else TempRun(TempNext(l, steps[0]), steps[1..])
  }

  lemma {:induction false} StepsOfOneList(s: State, d: nat, steps: seq<TempAction>)
    requires d < |s.lists|
    ensures Run(s, OnLists(d, steps)) == WithList(s, d, TempRun(s.lists[d], steps))
    decreases |steps|
  {
    if steps != [] {
      assert OnLists(d, steps)[1..] == OnLists(d, steps[1..]);
      StepsOfOneList(Next(s, OnList(d, steps[0])), d, steps[1..]);
    } else {
      assert s.lists[d := s.lists[d]] == s.lists;
    }
  }

  function PushSteps(k: nat): seq<TempAction> {
    [NewTemp, TempLock(k), TempPush(k), TempCount(k), TempUnlock(k)]
  }

  function DropSteps(k: nat): seq<TempAction> {
    [DropCount(k), DropLock(k), DropRemove(k)]
  }

  lemma TempRunStep(l: List, a: TempAction, rest: seq<TempAction>)
    ensures TempRun(l, [a] + rest) == TempRun(TempNext(l, a), rest)
  {
    assert ([a] + rest)[1..] == rest;
  }

  lemma PushRun(l: List)
    ensures TempRun(l, PushSteps(|l.temps|)) == WithAnother(l)
  {
    var k := |l.temps|;
    var (l1, l2, l3) := (TempNext(l, NewTemp), TempNext(TempNext(l, NewTemp), TempLock(k)),
                         TempNext(TempNext(TempNext(l, NewTemp), TempLock(k)), TempPush(k)));
    TempRunStep(l, NewTemp, [TempLock(k), TempPush(k), TempCount(k), TempUnlock(k)]);
    TempRunStep(l1, TempLock(k), [TempPush(k), TempCount(k), TempUnlock(k)]);
    TempRunStep(l2, TempPush(k), [TempCount(k), TempUnlock(k)]);
    TempRunStep(l3, TempCount(k), [TempUnlock(k)]);
    TempRunStep(TempNext(l3, TempCount(k)), TempUnlock(k), []);
    assert PushSteps(k) == [NewTemp] + [TempLock(k), TempPush(k), TempCount(k), TempUnlock(k)];
  }

  lemma DropRun(l: List, k: nat)
    ensures TempRun(l, DropSteps(k)) == TempNext(TempNext(TempNext(l, DropCount(k)), DropLock(k)), DropRemove(k))
  {
    TempRunStep(l, DropCount(k), [DropLock(k), DropRemove(k)]);
    TempRunStep(TempNext(l, DropCount(k)), DropLock(k), [DropRemove(k)]);
    TempRunStep(TempNext(TempNext(l, DropCount(k)), DropLock(k)), DropRemove(k), []);
    assert DropSteps(k) == [DropCount(k)] + [DropLock(k), DropRemove(k)];
  }

  /** Once its dispatcher is published and the list's lock is free, a temporary hook becomes
      live in five steps; it is the first that calls of its dispatcher meet, and if no hook of
      the list is being dropped they meet just it and then what they met so far. */
  lemma TempHookBecomesLive(acts: seq<Action>, d: nat)
    requires
      var s := Run(Init(), acts);
      d < |s.lists| && s.lists[d].dispatcher.Published? && s.lists[d].writer.None?
    ensures
      var (s, l) := (Run(Init(), acts), Run(Init(), acts).lists[d]);
      var k := |l.temps|;
      var l' := WithAnother(l);
      && Run(s, OnLists(d, PushSteps(k))) == WithList(s, d, l')
      && TempIn(l', k, Live) && l'.list == [k] + l.list && l.dispatcherOriginal == Some(l'.temps[k].original)
      && l'.writer.None? && l'.extraCount == l.extraCount + 1
      && RunningFrom(l', d, 0) != [] && RunningFrom(l', d, 0)[0] == TempHook(d, k)
      && ((forall j :: j in l.list ==> !IsDropping(l, j)) ==> RunningFrom(l', d, 0) == [TempHook(d, k)] + RunningFrom(l, d, 0))
  {
    RunKeepsInv(Init(), acts);
    var (s, l) := (Run(Init(), acts), Run(Init(), acts).lists[d]);
    StepsOfOneList(s, d, PushSteps(|l.temps|));
    PushRun(l);
    assert OriginalStored(l);
    AnotherIsLive(l);
    AnotherRunsFirst(l, d);
  }

  lemma AnotherRunsFirst(l: List, d: nat)
    requires ListInv(l) && l.listOriginal.Some? && l.writer.None?
    ensures
      var (l', k) := (WithAnother(l), |l.temps|);
      && RunningFrom(l', d, 0) != [] && RunningFrom(l', d, 0)[0] == TempHook(d, k)
      && ((forall j :: j in l.list ==> !IsDropping(l, j)) ==> RunningFrom(l', d, 0) == [TempHook(d, k)] + RunningFrom(l, d, 0))
  {
    AnotherIsLive(l);
    var l' := WithAnother(l);
    StandingRunsFirst(l', d);
    if forall j :: j in l.list ==> !IsDropping(l, j) {
      NobodyDropsStill(l, l', Temp(Live, l.listOriginal.value));
      ShiftedRun(l, l', d, 0);
    }
  }

  lemma {:induction false} ShiftedRun(l: List, l': List, d: nat, j: nat)
    requires |l'.list| == |l.list| + 1 && l'.list[1..] == l.list && j <= |l.list|
    requires forall k :: k in l.list ==> !IsDropping(l, k) && !IsDropping(l', k)
    ensures RunningFrom(l', d, j + 1) == RunningFrom(l, d, j)
    decreases |l.list| - j
  {
    if j < |l.list| {
      assert l'.list[j + 1] == l'.list[1..][j] == l.list[j];
      ShiftedRun(l, l', d, j + 1);
    }
  }

  lemma StandingRunsFirst(l: List, d: nat)
    requires l.list != [] && !IsDropping(l, l.list[0])
    ensures RunningFrom(l, d, 0) != [] && RunningFrom(l, d, 0)[0] == TempHook(d, l.list[0])
  {
  }

  lemma NobodyDropsStill(l: List, l': List, t: Temp)
    requires ListedOk(l) && l'.temps == l.temps + [t] && l'.list == [|l.temps|] + l.list && t.phase.Live?
    requires forall j :: j in l.list ==> !IsDropping(l, j)
    ensures forall j :: j in l'.list ==> !IsDropping(l', j)
  {
    forall j | j in l'.list ensures !IsDropping(l', j) {
      if j != |l.temps| {
        assert j in l.list && l'.temps[j] == l.temps[j];
      }
    }
  }

  /** A live hook whose handle is dropped while the list's lock is free is gone after three
      steps: out of the list, which keeps all others in order, and out of the count. */
  lemma DroppedHookIsGone(acts: seq<Action>, d: nat, k: nat)
    requires
      var s := Run(Init(), acts);
      d < |s.lists| && s.lists[d].writer.None? && TempIn(s.lists[d], k, Live)
    ensures
      var (s, l) := (Run(Init(), acts), Run(Init(), acts).lists[d]);
      var l' := TempRun(l, DropSteps(k));
      && Run(s, OnLists(d, DropSteps(k))) == WithList(s, d, l')
      && TempIn(l', k, Gone) && l'.list == Without(l.list, k) && k !in l'.list
      && l'.writer.None? && l'.extraCount == l.extraCount - 1
  {
    RunKeepsInv(Init(), acts);
    StepsOfOneList(Run(Init(), acts), d, DropSteps(k));
    DropOfLive(Run(Init(), acts).lists[d], k);
  }

  lemma DropOfLive(l: List, k: nat)
    requires ListedOk(l) && l.writer.None? && TempIn(l, k, Live)
    ensures
      var l' := TempRun(l, DropSteps(k));
      && TempIn(l', k, Gone) && l'.list == Without(l.list, k) && k !in l'.list
      && l'.writer.None? && l'.extraCount == l.extraCount - 1
  {
    DropRun(l, k);
    WithoutKeepsOthers(l.list, k);
  }

  // ----- no hook is lost

  lemma NextLog(s: State, a: Action)
    ensures Next(s, a).log == s.log || (|Next(s, a).log| > 0 && Next(s, a).log == [Next(s, a).log[0]] + s.log)
  {
  }

  lemma {:induction false} LogOnlyGrows(s: State, acts: seq<Action>) returns (newer: seq<Ptr>)
    ensures Run(s, acts).log == newer + s.log
    decreases |acts|
  {
    newer := [];
    if acts != [] {
      var s' := Next(s, acts[0]);
      NextLog(s, acts[0]);
      newer := LogOnlyGrows(s', acts[1..]);
      if s'.log != s.log {
        assert newer + s'.log == newer + [s'.log[0]] + s.log;
        newer := newer + [s'.log[0]];
      }
    }
  }

  lemma OriginalAt(s: State, i: nat)
    requires ChainInv(s) && i < |s.log|
    ensures Pos(s.log, s.log[i]) == i && OriginalOf(s, s.log[i]) == Some(PtrAt(s.log, i + 1))
  {
    assert ReplacedIsOriginal(s, i);
    assert s.log[Pos(s.log, s.log[i])] == s.log[i];
  }

  // The hook is in the chain now and later, and calls the pointer it replaced.
  ghost predicate KeepsItsOriginal(s: State, s': State, p: Ptr) {
    && p in s.log && p in s'.log
    && OriginalOf(s', p) == OriginalOf(s, p) == Some(PtrAt(s'.log, Pos(s'.log, p) + 1))
  }

  lemma StaysBehindItsPredecessor(s: State, s': State, newer: seq<Ptr>, p: Ptr)
    requires ChainInv(s) && ChainInv(s') && s'.log == newer + s.log && OriginalOf(s, p).Some?
    ensures KeepsItsOriginal(s, s', p)
  {
    var i := Pos(s.log, p);
    assert s'.log[|newer| + i] == p;
    OriginalAt(s, i);
    OriginalAt(s', |newer| + i);
  }

  /** Concurrent installs lose nothing: a hook whose exchange succeeded stays in the
      chain in every later state, and its `original` - for the dispatcher the pointer
      stored before the exchange - is for ever the pointer it replaced. */
  lemma InstalledHooksStay(before: seq<Action>, after: seq<Action>, p: Ptr)
    requires OriginalOf(Run(Init(), before), p).Some?
    ensures KeepsItsOriginal(Run(Init(), before), Run(Run(Init(), before), after), p)
  {
    var s, s' := Run(Init(), before), Run(Run(Init(), before), after);
    RunKeepsInv(Init(), before);
    RunKeepsInv(s, after);
    var newer := LogOnlyGrows(s, after);
    StaysBehindItsPredecessor(s, s', newer, p);
  }

  // ----- the counter's fast path

  /** When a live hook reads a counter of zero or less and skips the list, every hook
      behind it is already being dropped. */
  lemma FastPathSkipsOnlyDropped(acts: seq<Action>, d: nat, k: nat, j: nat)
    requires
      var s := Run(Init(), acts);
      && d < |s.lists| && TempIn(s.lists[d], k, Live) && s.lists[d].extraCount <= 0
      && j in s.lists[d].list && Pos(s.lists[d].list, k) < Pos(s.lists[d].list, j)
    ensures IsDropping(Run(Init(), acts).lists[d], j)
  {
    RunKeepsInv(Init(), acts);
    FastPathSkipsOnlyDropping(Run(Init(), acts).lists[d], k, j);
  }

  /** And it agrees with the lookup it skips: if the hook right behind a live one is not
      being dropped, or there is none, the counter and the list give the same answer. */
  lemma FastPathAgreesWithLookup(acts: seq<Action>, d: nat, k: nat)
    requires d < |Run(Init(), acts).lists| && TempIn(Run(Init(), acts).lists[d], k, Live)
    requires
      var l := Run(Init(), acts).lists[d];
      forall n: nat :: Successor(l.list, k) == Some(n) ==> !IsDropping(l, n)
    ensures
      var l := Run(Init(), acts).lists[d];
      NextHook(l, k) == Successor(l.list, k)
  {
    RunKeepsInv(Init(), acts);
    var l := Run(Init(), acts).lists[d];
    assert k in l.list;
    SuccessorIsBehind(l.list, k);
    if Successor(l.list, k).Some? && l.extraCount <= 0 {
      FastPathSkipsOnlyDropping(l, k, Successor(l.list, k).value);
    }
  }

  /** Each counter is the number of its list's counted handles whose drop has not begun,
      less one, and the list holds every live hook. */
  lemma CounterCountsLiveHandles(acts: seq<Action>, d: nat)
    requires d < |Run(Init(), acts).lists|
    ensures
      var l := Run(Init(), acts).lists[d];
      && l.extraCount + 1 == Sum(l.temps, CountedHandle)
      && forall k: nat :: TempIn(l, k, Live) ==> k in l.list
  {
    RunKeepsInv(Init(), acts);
  }
}
