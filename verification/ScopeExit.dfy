/** The end of a hook scope: the scope holds one strong reference per scoped hook, every
    running call holds another, and the main thread drains the references in reverse
    order, parking until the last call has let go. Atomic steps interleave freely; a
    step that is not enabled does nothing. */
module ScopeExit {
  import opened Sums

  // One call of a hook's thunk.
  datatype CallPhase =
    | InBody       // upgraded the weak reference, runs the hook body
    | Leaving      // body done, still holds its strong reference
    | Unparking    // dropped the last reference, about to unpark the main thread
    | Finished
    | CallsOriginal   // could not upgrade, called the original instead

  datatype Call = Call(hook: nat, phase: CallPhase)

  datatype Main =
    | InScope              // runs the scope's closure
    | Draining(left: nat)  // hooks with index < left still hold the scope's reference
    | Checking(hook: nat)  // released its reference to `hook`, about to read the strong count
    | Parking(hook: nat)   // read a count other than 0, parks
    | Returned

  datatype State = State(
    strong: seq<nat>,      // strong count of each scoped hook
    calls: seq<Call>,
    main: Main,
    token: bool)           // the main thread's park token

  datatype Action =
    | NewHook
    | Enter(hook: nat)
    | BodyDone(c: nat)
    | Release(c: nat)
    | Unpark(c: nat)
    | ForeignUnpark
    | ExitScope
    | MainRelease
    | MainCheck
    | MainPark
    | SpuriousWake

  function Init(): State {
    State([], [], InScope, false)
  }

  predicate CallIn(s: State, c: nat, phase: CallPhase) {
    c < |s.calls| && s.calls[c].phase == phase
  }

  function WithCall(s: State, c: nat, phase: CallPhase): State
    requires c < |s.calls|
  {
    s.(calls := s.calls[c := s.calls[c].(phase := phase)])
  }

  predicate Enabled(s: State, a: Action) {
    match a
    case NewHook => s.main.InScope?
    case Enter(h) => h < |s.strong|
    case BodyDone(c) => CallIn(s, c, InBody)
    case Release(c) => CallIn(s, c, Leaving) && s.calls[c].hook < |s.strong| && s.strong[s.calls[c].hook] > 0
    case Unpark(c) => CallIn(s, c, Unparking)
    case ForeignUnpark => true
    case ExitScope => s.main.InScope?
    case MainRelease => s.main.Draining? && (s.main.left > 0 ==> s.main.left <= |s.strong| && s.strong[s.main.left - 1] > 0)
    case MainCheck => s.main.Checking? && s.main.hook < |s.strong|
    case MainPark => s.main.Parking? && s.token
    case SpuriousWake => s.main.Parking?
  }

  function Next(s: State, a: Action): State {
    if !Enabled(s, a) then s else
      match a
      case NewHook => s.(strong := s.strong + [1])
      // `weak.upgrade()` succeeds as long as the strong count is not 0.
      case Enter(h) =>
        if s.strong[h] > 0 then s.(strong := s.strong[h := s.strong[h] + 1], calls := s.calls + [Call(h, InBody)])
        else s.(calls := s.calls + [Call(h, CallsOriginal)])
      case BodyDone(c) => WithCall(s, c, Leaving)
      // `Arc::into_inner` is Some for whoever drops the last reference.
      case Release(c) =>
        var h := s.calls[c].hook;
        WithCall(s, c, if s.strong[h] == 1 then Unparking else Finished).(strong := s.strong[h := s.strong[h] - 1])
      case Unpark(c) => WithCall(s, c, Finished).(token := true)
      case ForeignUnpark => s.(token := true)
      case ExitScope => s.(main := Draining(|s.strong|))
      case MainRelease =>
        if s.main.left == 0 then s.(main := Returned)
        else
          var h := s.main.left - 1;
          s.(strong := s.strong[h := s.strong[h] - 1], main := if s.strong[h] == 1 then Draining(h) else Checking(h))
      case MainCheck =>
        s.(main := if s.strong[s.main.hook] == 0 then Draining(s.main.hook) else Parking(s.main.hook))
      case MainPark => s.(main := Checking(s.main.hook), token := false)
      case SpuriousWake => s.(main := Checking(s.main.hook))
  }

  function Run(s: State, acts: seq<Action>): State
    decreases |acts|
  {
    if acts == [] then s else Run(Next(s, acts[0]), acts[1..])
  }

  // ----- the invariant

  // Hooks below this index still have the scope's reference.
  function Held(s: State): nat {
    match s.main
    case InScope => |s.strong|
    case Draining(left) => left
    case Checking(h) => h
    case Parking(h) => h
    case Returned => 0
  }

  // Hooks from this index on are done with for good.
  function Closed(s: State): nat {
    match s.main
    case Checking(h) => h + 1
    case Parking(h) => h + 1
    case _ => Held(s)
  }

  function HoldsRef(h: nat): Call -> nat {
    (c: Call) => if c.hook == h && (c.phase.InBody? || c.phase.Leaving?) then 1 else 0
  }

  predicate CountOk(s: State, h: nat)
    requires h < |s.strong|
  {
    s.strong[h] == Sum(s.calls, HoldsRef(h)) + if h < Held(s) then 1 else 0
  }

  ghost predicate CountsOk(s: State) {
    && Closed(s) <= |s.strong|
    && (forall c :: c in s.calls ==> c.hook < |s.strong|)
    && forall h {:trigger CountOk(s, h)} :: 0 <= h < |s.strong| ==> CountOk(s, h)
  }

  ghost predicate ClosedOk(s: State) {
    forall h :: Closed(s) <= h < |s.strong| ==> s.strong[h] == 0
  }

  ghost predicate UnparkComing(s: State, h: nat) {
    exists c: nat :: CallIn(s, c, Unparking) && s.calls[c].hook == h
  }

  // A main thread about to sleep on a hook nobody holds will find its token set.
  ghost predicate NoLostWakeup(s: State) {
    s.main.Parking? && s.main.hook < |s.strong| && s.strong[s.main.hook] == 0 ==>
      s.token || UnparkComing(s, s.main.hook)
  }

  ghost predicate Inv(s: State) {
    CountsOk(s) && ClosedOk(s) && NoLostWakeup(s)
  }

  lemma CallUpdate(s: State, c: nat, phase: CallPhase, h: nat)
    requires c < |s.calls|
    ensures
      Sum(WithCall(s, c, phase).calls, HoldsRef(h)) + HoldsRef(h)(s.calls[c])
      == Sum(s.calls, HoldsRef(h)) + HoldsRef(h)(s.calls[c].(phase := phase))
  {
    SumUpdate(s.calls, HoldsRef(h), c, s.calls[c].(phase := phase));
  }

  lemma CallStepKeepsCount(s: State, a: Action, h: nat)
    requires Enabled(s, a) && (a.BodyDone? || a.Release? || a.Unpark?)
    requires h < |s.strong| && CountOk(s, h)
    ensures CountOk(Next(s, a), h)
  {
    CallUpdate(s, a.c, Next(s, a).calls[a.c].phase, h);
  }

  lemma EnterKeepsCount(s: State, g: nat, h: nat)
    requires g < |s.strong| && h < |s.strong| && CountOk(s, h)
    ensures CountOk(Next(s, Enter(g)), h)
  {
    SumAppend(s.calls, HoldsRef(h), Call(g, InBody));
    SumAppend(s.calls, HoldsRef(h), Call(g, CallsOriginal));
  }

  lemma NextKeepsCount(s: State, a: Action, h: nat)
    requires Inv(s) && Enabled(s, a) && h < |Next(s, a).strong|
    ensures CountOk(Next(s, a), h)
  {
    if h < |s.strong| { assert CountOk(s, h); }
    if a.NewHook? {
      if h == |s.strong| { NobodyHolds(s.calls, h); }
    } else if a.Enter? {
      EnterKeepsCount(s, a.hook, h);
    } else if a.BodyDone? || a.Release? || a.Unpark? {
      CallStepKeepsCount(s, a, h);
    }
  }

  lemma {:induction false} NobodyHolds(calls: seq<Call>, h: nat)
    requires forall c :: c in calls ==> c.hook < h
    ensures Sum(calls, HoldsRef(h)) == 0
  {
    if calls != [] {
      assert calls[0] in calls;
      NobodyHolds(calls[1..], h);
    }
  }

  lemma NextKeepsCounts(s: State, a: Action)
    requires Inv(s) && Enabled(s, a)
    ensures CountsOk(Next(s, a)) && ClosedOk(Next(s, a))
  {
    var s' := Next(s, a);
    forall h | 0 <= h < |s'.strong| ensures CountOk(s', h) {
      NextKeepsCount(s, a, h);
    }
    NextKeepsCallHooks(s, a);
  }

  lemma NextKeepsCallHooks(s: State, a: Action)
    requires Inv(s) && Enabled(s, a)
    ensures forall c :: c in Next(s, a).calls ==> c.hook < |Next(s, a).strong|
  {
  }

  lemma NextKeepsWakeup(s: State, a: Action)
    requires Inv(s) && Enabled(s, a)
    ensures NoLostWakeup(Next(s, a))
  {
    var s' := Next(s, a);
    if s'.main.Parking? && s'.main.hook < |s'.strong| && s'.strong[s'.main.hook] == 0 && !s'.token {
      var h := s'.main.hook;
      if a.Release? && s.calls[a.c].hook == h {
        assert CallIn(s', a.c, Unparking);
      } else if s.main.Parking? {
        var c: nat :| CallIn(s, c, Unparking) && s.calls[c].hook == h;
        assert CallIn(s', c, Unparking) && s'.calls[c].hook == h;
      }
    }
  }

  lemma {:induction false} RunKeepsInv(s: State, acts: seq<Action>)
    requires Inv(s)
    ensures Inv(Run(s, acts))
    decreases |acts|
  {
    if acts != [] {
      if Enabled(s, acts[0]) {
        NextKeepsCounts(s, acts[0]);
        NextKeepsWakeup(s, acts[0]);
      }
      RunKeepsInv(Next(s, acts[0]), acts[1..]);
    }
  }

  // ----- safety

  ghost predicate NoBodyRuns(s: State) {
    forall c: nat :: !CallIn(s, c, InBody) && !CallIn(s, c, Leaving)
  }

  lemma ReturnedMeansNoBody(s: State)
    requires Inv(s) && s.main.Returned?
    ensures NoBodyRuns(s)
  {
    forall c: nat ensures !CallIn(s, c, InBody) && !CallIn(s, c, Leaving) {
      if c < |s.calls| {
        var h := s.calls[c].hook;
        assert s.calls[c] in s.calls;
        assert CountOk(s, h);
        SumIsAtLeast(s.calls, HoldsRef(h), c);
      }
    }
  }

  lemma {:induction false} ReturnedStays(s: State, acts: seq<Action>)
    requires s.main.Returned?
    ensures Run(s, acts).main.Returned? && |Run(s, acts).strong| == |s.strong|
    decreases |acts|
  {
    if acts != [] {
      ReturnedStays(Next(s, acts[0]), acts[1..]);
    }
  }

  /** When the scope has returned, no scoped hook body is running, none ever starts
      again, and a call through a surviving handle goes to the original. */
  lemma NoBodyOutlivesTheScope(acts: seq<Action>, later: seq<Action>, hook: nat)
    requires Run(Init(), acts).main.Returned?
    ensures NoBodyRuns(Run(Init(), acts))
    ensures
      var s := Run(Run(Init(), acts), later);
      && NoBodyRuns(s)
      && (hook < |s.strong| ==> Next(s, Enter(hook)) == s.(calls := s.calls + [Call(hook, CallsOriginal)]))
  {
    RunKeepsInv(Init(), acts);
    RunKeepsInv(Run(Init(), acts), later);
    ReturnedStays(Run(Init(), acts), later);
    ReturnedMeansNoBody(Run(Init(), acts));
    ReturnedMeansNoBody(Run(Run(Init(), acts), later));
  }

  // The scope, or a call that has not let go yet, still holds the hook.
  ghost predicate StillHeld(s: State, h: nat) {
    h < Held(s) || exists c: nat :: (CallIn(s, c, InBody) || CallIn(s, c, Leaving)) && s.calls[c].hook == h
  }

  /** A call of a hook runs its body as long as the scope or a running call holds it, and
      from then on calls the original. A hook just added is held. */
  lemma CallRunsBodyWhileHeld(acts: seq<Action>, h: nat)
    requires h < |Run(Init(), acts).strong|
    ensures
      var s := Run(Init(), acts);
      Next(s, Enter(h)) ==
      if StillHeld(s, h) then s.(strong := s.strong[h := s.strong[h] + 1], calls := s.calls + [Call(h, InBody)])
      else s.(calls := s.calls + [Call(h, CallsOriginal)])
    ensures
      var s := Run(Init(), acts);
      s.main.InScope? ==> StillHeld(s, h) && StillHeld(Next(s, NewHook), |s.strong|) && |Next(s, NewHook).strong| == |s.strong| + 1
  {
    RunKeepsInv(Init(), acts);
    var s := Run(Init(), acts);
    assert CountOk(s, h);
    if c: nat :| (CallIn(s, c, InBody) || CallIn(s, c, Leaving)) && s.calls[c].hook == h {
      SumIsAtLeast(s.calls, HoldsRef(h), c);
    }
    if Sum(s.calls, HoldsRef(h)) > 0 {
      var c := PositiveSumHasWitness(s.calls, HoldsRef(h));
      assert CallIn(s, c, InBody) || CallIn(s, c, Leaving);
    }
  }

  // ----- progress: without new calls the exit completes

  predicate IsProgress(a: Action) {
    a.BodyDone? || a.Release? || a.Unpark? || a.ExitScope? || a.MainRelease? || a.MainCheck? || a.MainPark?
  }

  ghost predicate ProgressRun(s: State, acts: seq<Action>)
    decreases |acts|
  {
    acts == [] || (IsProgress(acts[0]) && Enabled(s, acts[0]) && ProgressRun(Next(s, acts[0]), acts[1..]))
  }

  function StepsLeft(c: Call): nat {
    match c.phase
    case InBody => 3
    case Leaving => 2
    case Unparking => 1
    case _ => 0
  }

  function MainLeft(s: State): nat {
    match s.main
    case InScope => 2 * |s.strong| + 2
    case Draining(left) => 2 * left + 1
    case Checking(h) => 2 * h + 2
    case Parking(h) => 2 * h + 2
    case Returned => 0
  }

  function TokenDigit(s: State): nat { if s.token then 1 else 0 }

  function CheckDigit(s: State): nat { if s.main.Checking? then 1 else 0 }

  // Lexicographic in (steps of running calls, the main thread's remaining hooks, token, check).
  function Rank(s: State): nat {
    Digit(Digit(Digit(Sum(s.calls, StepsLeft), 2 * |s.strong| + 3, MainLeft(s)), 2, TokenDigit(s)), 2, CheckDigit(s))
  }

  lemma LexicographicDecrease(s: State, s': State)
    requires |s'.strong| == |s.strong| && MainLeft(s') < 2 * |s.strong| + 3
    requires
      var (w, w') := (Sum(s.calls, StepsLeft), Sum(s'.calls, StepsLeft));
      w' < w || (w' == w && (MainLeft(s') < MainLeft(s) || (MainLeft(s') == MainLeft(s) &&
        (TokenDigit(s') < TokenDigit(s) || (TokenDigit(s') == TokenDigit(s) && CheckDigit(s') < CheckDigit(s))))))
    ensures Rank(s') < Rank(s)
  {
    var base := 2 * |s.strong| + 3;
    var (w, w') := (Sum(s.calls, StepsLeft), Sum(s'.calls, StepsLeft));
    var (d2, d2') := (Digit(w, base, MainLeft(s)), Digit(w', base, MainLeft(s')));
    var (d3, d3') := (Digit(d2, 2, TokenDigit(s)), Digit(d2', 2, TokenDigit(s')));
    if w' < w { HighDigitDecides(w, w', base, MainLeft(s), MainLeft(s')); }
    if d2' < d2 { HighDigitDecides(d2, d2', 2, TokenDigit(s), TokenDigit(s')); }
    assert d2' < d2 ==> d3' < d3;
    assert d2' == d2 && TokenDigit(s') < TokenDigit(s) ==> d3' < d3;
    if d3' < d3 { HighDigitDecides(d3, d3', 2, CheckDigit(s), CheckDigit(s')); }
  }

  lemma ProgressLowersRank(s: State, a: Action)
    requires Inv(s) && IsProgress(a) && Enabled(s, a)
    ensures Rank(Next(s, a)) < Rank(s)
  {
    var s' := Next(s, a);
    if a.BodyDone? || a.Release? || a.Unpark? {
      SumUpdate(s.calls, StepsLeft, a.c, s'.calls[a.c]);
    }
    LexicographicDecrease(s, s');
  }

  lemma {:induction false} ProgressRunsAreBounded(s: State, acts: seq<Action>)
    requires Inv(s) && ProgressRun(s, acts)
    ensures |acts| + Rank(Run(s, acts)) <= Rank(s)
    decreases |acts|
  {
    if acts != [] {
      ProgressLowersRank(s, acts[0]);
      NextKeepsCounts(s, acts[0]);
      NextKeepsWakeup(s, acts[0]);
      ProgressRunsAreBounded(Next(s, acts[0]), acts[1..]);
    }
  }

  lemma MainIsNeverStuck(s: State) returns (a: Action)
    requires Inv(s) && !s.main.Returned?
    ensures IsProgress(a) && Enabled(s, a)
  {
    match s.main {
      case InScope => a := ExitScope;
      case Draining(left) =>
        if left > 0 { assert CountOk(s, left - 1); }
        a := MainRelease;
      case Checking(h) => a := MainCheck;
      case Parking(h) =>
        assert CountOk(s, h);
        if s.token {
          a := MainPark;
        } else if s.strong[h] == 0 {
          var c: nat :| CallIn(s, c, Unparking) && s.calls[c].hook == h;
          a := Unpark(c);
        } else {
          var c := PositiveSumHasWitness(s.calls, HoldsRef(h));
          a := if CallIn(s, c, InBody) then BodyDone(c) else Release(c);
        }
    }
  }

  /** Whatever happened before: if from now on no new call starts, no wakeup is spurious
      and every body returns, then every schedule takes at most `Rank` steps, and as long
      as the scope has not returned there is a step to take. The exit never hangs. */
  lemma ScopeExitCompletes(acts: seq<Action>, more: seq<Action>)
    requires ProgressRun(Run(Init(), acts), more)
    ensures |more| <= Rank(Run(Init(), acts))
    ensures
      var s := Run(Run(Init(), acts), more);
      s.main.Returned? || exists a :: IsProgress(a) && Enabled(s, a)
  {
    RunKeepsInv(Init(), acts);
    ProgressRunsAreBounded(Run(Init(), acts), more);
    RunKeepsInv(Run(Init(), acts), more);
    if !Run(Run(Init(), acts), more).main.Returned? {
      var a := MainIsNeverStuck(Run(Run(Init(), acts), more));
    }
  }

  /** While the main thread sleeps, someone is about to wake it: a hook nobody holds has
      its unpark on the way, any other has a call that has yet to let go. */
  lemma ParkedMainWillBeWoken(acts: seq<Action>)
    requires
      var s := Run(Init(), acts);
      s.main.Parking? && !s.token
    ensures
      var s := Run(Init(), acts);
      && s.main.hook < |s.strong|
      && if s.strong[s.main.hook] == 0 then UnparkComing(s, s.main.hook)
         else exists c: nat :: (CallIn(s, c, InBody) || CallIn(s, c, Leaving)) && s.calls[c].hook == s.main.hook
  {
    RunKeepsInv(Init(), acts);
    var s := Run(Init(), acts);
    assert CountOk(s, s.main.hook);
    if s.strong[s.main.hook] != 0 {
      var c := PositiveSumHasWitness(s.calls, HoldsRef(s.main.hook));
      assert CallIn(s, c, InBody) || CallIn(s, c, Leaving);
    }
  }
}
