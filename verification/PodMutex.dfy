/** The futex lock `PodMutex` as a system of N threads. Every atomic access and
    every futex call is one step; `Next` lets a step that is not enabled do
    nothing, so each sequence of actions is an interleaving. */
module PodMutex {
  import opened Sums

  const UNLOCKED := 0
  const LOCKED := 1
  const CONTENDED := 2

  // Where a thread stands in `lock` or in the guard's `drop`.
  datatype PC =
    | Idle
    | Trying     // about to compare_exchange UNLOCKED -> LOCKED
    | Swapping   // in the loop, saw a word other than CONTENDED
    | Waiting    // about to call the futex wait
    | Sleeping   // asleep in the futex wait
    | Reloading  // returned from the wait, about to load the word
    | Holding    // owns the guard
    | Waking     // swapped out CONTENDED, about to call wake_one

  datatype State = State(word: nat, threads: seq<PC>)

  datatype Action =
    | Lock(t: nat)
    | TryLock(t: nat)
    | Swap(t: nat)
    | Wait(t: nat)
    | SpuriousReturn(t: nat)
    | Reload(t: nat)
    | Unlock(t: nat)
    | WakeOne(t: nat, sleeper: nat)

  function Init(n: nat): State {
    State(UNLOCKED, seq(n, _ => Idle))
  }

  predicate At(s: State, t: nat, pc: PC) {
    t < |s.threads| && s.threads[t] == pc
  }

  ghost predicate Asleep(s: State) {
    exists t: nat :: At(s, t, Sleeping)
  }

  ghost predicate Enabled(s: State, a: Action) {
    match a
    case Lock(t) => At(s, t, Idle)
    case TryLock(t) => At(s, t, Trying)
    case Swap(t) => At(s, t, Swapping)
    case Wait(t) => At(s, t, Waiting)
    case SpuriousReturn(t) => At(s, t, Sleeping)
    case Reload(t) => At(s, t, Reloading)
    case Unlock(t) => At(s, t, Holding)
    // The kernel picks some sleeper if there is one.
    case WakeOne(t, u) => At(s, t, Waking) && (At(s, u, Sleeping) || !Asleep(s))
  }

  function Move(s: State, t: nat, pc: PC, word: nat): State
    requires t < |s.threads|
  {
    State(word, s.threads[t := pc])
  }

  // The `state != CONTENDED` test on a word just read.
  function AfterRead(word: nat): PC {
    if word != CONTENDED then Swapping else Waiting
  }

  ghost function Next(s: State, a: Action): State {
    if !Enabled(s, a) then s else
      match a
      case Lock(t) => Move(s, t, Trying, s.word)
      case TryLock(t) =>
        if s.word == UNLOCKED then Move(s, t, Holding, LOCKED) else Move(s, t, AfterRead(s.word), s.word)
      case Swap(t) =>
        if s.word == UNLOCKED then Move(s, t, Holding, CONTENDED) else Move(s, t, Waiting, CONTENDED)
      case Wait(t) =>
        if s.word == CONTENDED then Move(s, t, Sleeping, s.word) else Move(s, t, Reloading, s.word)
      case SpuriousReturn(t) => Move(s, t, Reloading, s.word)
      case Reload(t) => Move(s, t, AfterRead(s.word), s.word)
      case Unlock(t) =>
        if s.word == CONTENDED then Move(s, t, Waking, UNLOCKED) else Move(s, t, Idle, UNLOCKED)
      case WakeOne(t, u) =>
        var s' := Move(s, t, Idle, s.word);
        if At(s, u, Sleeping) then Move(s', u, Reloading, s.word) else s'
  }

  ghost function Run(s: State, acts: seq<Action>): State
    decreases |acts|
  {
    if acts == [] then s else Run(Next(s, acts[0]), acts[1..])
  }

  // ----- safety

  ghost predicate MutualExclusion(s: State) {
    && (forall t: nat, u: nat :: At(s, t, Holding) && At(s, u, Holding) ==> t == u)
    && (s.word == UNLOCKED <==> forall t: nat :: !At(s, t, Holding))
  }

  // Someone who is not asleep will mark the word CONTENDED or wake a sleeper.
  ghost predicate HelpIsComing(s: State) {
    exists t: nat :: At(s, t, Waking) || At(s, t, Reloading) || At(s, t, Swapping)
  }

  ghost predicate NoLostWakeup(s: State) {
    Asleep(s) ==> s.word == CONTENDED || HelpIsComing(s)
  }

  ghost predicate Inv(s: State) {
    s.word <= CONTENDED && MutualExclusion(s) && NoLostWakeup(s)
  }

  lemma HoldersAfter(s: State, a: Action, u: nat)
    requires Inv(s) && Enabled(s, a)
    ensures At(Next(s, a), u, Holding) <==>
            (if u == a.t && s.word == UNLOCKED && (a.TryLock? || a.Swap?) then true
             else At(s, u, Holding) && !(a.Unlock? && u == a.t))
  {
  }

  lemma NextKeepsMutualExclusion(s: State, a: Action)
    requires Inv(s)
    ensures Next(s, a).word <= CONTENDED && MutualExclusion(Next(s, a))
  {
    if Enabled(s, a) {
      var s' := Next(s, a);
      forall u: nat
        ensures At(s', u, Holding) <==>
                (if u == a.t && s.word == UNLOCKED && (a.TryLock? || a.Swap?) then true
                 else At(s, u, Holding) && !(a.Unlock? && u == a.t))
      {
        HoldersAfter(s, a, u);
      }
      if s.word != UNLOCKED && !a.Unlock? {
        var h: nat :| At(s, h, Holding);
        assert At(s', h, Holding);
      }
      if s.word == UNLOCKED && (a.TryLock? || a.Swap?) {
        assert At(s', a.t, Holding);
      }
    }
  }

  lemma NextKeepsWakeups(s: State, a: Action)
    requires Inv(s)
    ensures NoLostWakeup(Next(s, a))
  {
    var s' := Next(s, a);
    if Enabled(s, a) && Asleep(s') && s'.word != CONTENDED {
      if a.WakeOne? {
        if At(s, a.sleeper, Sleeping) {
          assert At(s', a.sleeper, Reloading);
        } else {
          var u: nat :| At(s', u, Sleeping);
          assert At(s, u, Sleeping);
          assert false;
        }
      } else if At(s', a.t, Waking) || At(s', a.t, Reloading) || At(s', a.t, Swapping) {
        assert HelpIsComing(s');
      } else {
        var u: nat :| At(s', u, Sleeping);
        assert At(s, u, Sleeping) && s.word != CONTENDED;
        var h: nat :| At(s, h, Waking) || At(s, h, Reloading) || At(s, h, Swapping);
        assert At(s', h, s.threads[h]);
      }
    }
  }

  lemma {:induction false} RunKeepsInv(s: State, acts: seq<Action>)
    requires Inv(s)
    ensures Inv(Run(s, acts))
    decreases |acts|
  {
    if acts != [] {
      NextKeepsMutualExclusion(s, acts[0]);
      NextKeepsWakeups(s, acts[0]);
      RunKeepsInv(Next(s, acts[0]), acts[1..]);
    }
  }

  /** In every interleaving of any number of threads there is at most one holder,
      the word is UNLOCKED exactly when there is none, and no sleeper is forgotten. */
  lemma EveryInterleavingIsSafe(n: nat, acts: seq<Action>)
    ensures MutualExclusion(Run(Init(n), acts))
    ensures NoLostWakeup(Run(Init(n), acts))
  {
    RunKeepsInv(Init(n), acts);
  }

  /** A free lock is taken with one exchange and leaves LOCKED behind; if nobody else came,
      its unlock wakes nobody. */
  lemma UncontendedLock(n: nat, acts: seq<Action>, t: nat)
    requires At(Run(Init(n), acts), t, Idle) && Run(Init(n), acts).word == UNLOCKED
    ensures
      var s := Run(Init(n), acts);
      var locked := Next(Next(s, Lock(t)), TryLock(t));
      && locked == State(LOCKED, s.threads[t := Holding])
      && Next(locked, Unlock(t)) == s
  {
    var s := Run(Init(n), acts);
    var locked := Next(Next(s, Lock(t)), TryLock(t));
    assert s.threads[t := Trying][t := Holding] == s.threads[t := Holding];
    assert locked.threads[t := Idle] == s.threads;
  }

  predicate Contends(pc: PC) {
    pc.Trying? || pc.Swapping? || pc.Waiting? || pc.Sleeping? || pc.Reloading?
  }

  /** A contender gets out of `lock` only as the holder, and the holder out of the guard only
      by unlocking; it owes a wake exactly if the word was CONTENDED. */
  lemma ContendersLeaveAsHolders(s: State, a: Action, t: nat)
    requires t < |s.threads| && Enabled(s, a)
    ensures
      var (pc, pc') := (s.threads[t], Next(s, a).threads[t]);
      && |Next(s, a).threads| == |s.threads|
      && (Contends(pc) ==> Contends(pc') || (pc'.Holding? && s.word == UNLOCKED))
      && (pc.Holding? && a != Unlock(t) ==> pc'.Holding?)
      && (a == Unlock(t) ==> Next(s, a).word == UNLOCKED && pc' == if s.word == CONTENDED then Waking else Idle)
      && (a == Lock(t) ==> Contends(pc'))
  {
  }

  // ----- progress: without new `lock` calls and spurious returns the lock drains

  predicate IsProgress(a: Action) {
    !a.Lock? && !a.SpuriousReturn?
  }

  ghost predicate ProgressRun(s: State, acts: seq<Action>)
    decreases |acts|
  {
    acts == [] || (IsProgress(acts[0]) && Enabled(s, acts[0]) && ProgressRun(Next(s, acts[0]), acts[1..]))
  }

  ghost predicate AllIdle(s: State) {
    forall t: nat :: t < |s.threads| ==> At(s, t, Idle)
  }

  function Unserved(pc: PC): nat { if pc.Idle? || pc.Waking? then 0 else 1 }

  function WakesOwed(pc: PC): nat { if pc.Waking? then 1 else 0 }

  function Untried(pc: PC): nat { if pc.Trying? then 1 else 0 }

  // Steps a thread still takes before it sleeps or holds, while the word is CONTENDED or not.
  function ToSleep(pc: PC): nat {
    if pc.Reloading? || pc.Swapping? then 2 else if pc.Waiting? then 1 else 0
  }

  function ToSwap(pc: PC): nat {
    if pc.Waiting? then 3 else if pc.Reloading? then 2 else if pc.Swapping? then 1 else 0
  }

  function Calm(s: State): nat {
    if s.word == CONTENDED then 0 else 1
  }

  function Hops(s: State): nat {
    if s.word == CONTENDED then Sum(s.threads, ToSleep) else Sum(s.threads, ToSwap)
  }

  // A bound on the progress steps that are left: lexicographic in
  // (unserved threads, owed wakes, untried threads, word not CONTENDED, hops).
  function Rank(s: State): nat {
    var n := |s.threads|;
    Digit(
      Digit(Digit(Digit(Sum(s.threads, Unserved), n + 1, Sum(s.threads, WakesOwed)),
                  n + 1, Sum(s.threads, Untried)), 2, Calm(s)), 3 * n + 1, Hops(s))
  }

  lemma DigitsAreSmall(s: State)
    ensures Sum(s.threads, WakesOwed) <= |s.threads|
    ensures Sum(s.threads, Untried) <= |s.threads|
    ensures Hops(s) <= 3 * |s.threads|
  {
    SumIsAtMost(s.threads, WakesOwed, 1);
    SumIsAtMost(s.threads, Untried, 1);
    SumIsAtMost(s.threads, ToSleep, 3);
    SumIsAtMost(s.threads, ToSwap, 3);
  }

  lemma LexicographicDecrease(s: State, s': State)
    requires |s.threads| == |s'.threads|
    requires
      var (u, u') := (Sum(s.threads, Unserved), Sum(s'.threads, Unserved));
      var (w, w') := (Sum(s.threads, WakesOwed), Sum(s'.threads, WakesOwed));
      var (y, y') := (Sum(s.threads, Untried), Sum(s'.threads, Untried));
      u' < u || (u' == u && (w' < w || (w' == w && (y' < y || (y' == y &&
        (Calm(s') < Calm(s) || (Calm(s') == Calm(s) && Hops(s') < Hops(s))))))))
    ensures Rank(s') < Rank(s)
  {
    var n := |s.threads|;
    DigitsAreSmall(s);
    DigitsAreSmall(s');
    var (u, u') := (Sum(s.threads, Unserved), Sum(s'.threads, Unserved));
    var (w, w') := (Sum(s.threads, WakesOwed), Sum(s'.threads, WakesOwed));
    var (y, y') := (Sum(s.threads, Untried), Sum(s'.threads, Untried));
    var (d2, d2') := (Digit(u, n + 1, w), Digit(u', n + 1, w'));
    var (d3, d3') := (Digit(d2, n + 1, y), Digit(d2', n + 1, y'));
    var (d4, d4') := (Digit(d3, 2, Calm(s)), Digit(d3', 2, Calm(s')));
    if u' < u { HighDigitDecides(u, u', n + 1, w, w'); }
    if d2' < d2 { HighDigitDecides(d2, d2', n + 1, y, y'); }
    if d3' < d3 { HighDigitDecides(d3, d3', 2, Calm(s), Calm(s')); }
    if d4' < d4 { HighDigitDecides(d4, d4', 3 * n + 1, Hops(s), Hops(s')); }
  }

  lemma MoveSums(s: State, t: nat, pc: PC, word: nat)
    requires t < |s.threads|
    ensures
      var s' := Move(s, t, pc, word);
      var was := s.threads[t];
      && Sum(s'.threads, Unserved) + Unserved(was) == Sum(s.threads, Unserved) + Unserved(pc)
      && Sum(s'.threads, WakesOwed) + WakesOwed(was) == Sum(s.threads, WakesOwed) + WakesOwed(pc)
      && Sum(s'.threads, Untried) + Untried(was) == Sum(s.threads, Untried) + Untried(pc)
      && Sum(s'.threads, ToSleep) + ToSleep(was) == Sum(s.threads, ToSleep) + ToSleep(pc)
      && Sum(s'.threads, ToSwap) + ToSwap(was) == Sum(s.threads, ToSwap) + ToSwap(pc)
  {
    SumUpdate(s.threads, Unserved, t, pc);
    SumUpdate(s.threads, WakesOwed, t, pc);
    SumUpdate(s.threads, Untried, t, pc);
    SumUpdate(s.threads, ToSleep, t, pc);
    SumUpdate(s.threads, ToSwap, t, pc);
  }

  lemma ProgressLowersRank(s: State, a: Action)
    requires Inv(s) && IsProgress(a) && Enabled(s, a)
    ensures Rank(Next(s, a)) < Rank(s)
  {
    if a.WakeOne? {
      WakeLowersRank(s, a);
    } else {
      var s' := Next(s, a);
      MoveSums(s, a.t, s'.threads[a.t], s'.word);
      LexicographicDecrease(s, s');
    }
  }

  lemma WakeLowersRank(s: State, a: Action)
    requires a.WakeOne? && Enabled(s, a)
    ensures Rank(Next(s, a)) < Rank(s)
  {
    MoveSums(s, a.t, Idle, s.word);
    if At(s, a.sleeper, Sleeping) {
      MoveSums(Move(s, a.t, Idle, s.word), a.sleeper, Reloading, s.word);
    }
    LexicographicDecrease(s, Next(s, a));
  }

  lemma {:induction false} ProgressRunsAreBounded(s: State, acts: seq<Action>)
    requires Inv(s) && ProgressRun(s, acts)
    ensures |acts| + Rank(Run(s, acts)) <= Rank(s)
    decreases |acts|
  {
    if acts != [] {
      ProgressLowersRank(s, acts[0]);
      NextKeepsMutualExclusion(s, acts[0]);
      NextKeepsWakeups(s, acts[0]);
      ProgressRunsAreBounded(Next(s, acts[0]), acts[1..]);
    }
  }

  lemma WakerCanStep(s: State, t: nat) returns (a: Action)
    requires At(s, t, Waking)
    ensures IsProgress(a) && Enabled(s, a)
  {
    a := WakeOne(t, 0);
    if Asleep(s) {
      var u: nat :| At(s, u, Sleeping);
      a := WakeOne(t, u);
    }
  }

  lemma BusyThreadMeansAStep(s: State, t: nat) returns (a: Action)
    requires Inv(s) && t < |s.threads| && !At(s, t, Idle)
    ensures IsProgress(a) && Enabled(s, a)
  {
    match s.threads[t] {
      case Trying => a := TryLock(t);
      case Swapping => a := Swap(t);
      case Waiting => a := Wait(t);
      case Reloading => a := Reload(t);
      case Holding => a := Unlock(t);
      case Waking => a := WakerCanStep(s, t);
      case Sleeping =>
        assert At(s, t, Sleeping);
        if HelpIsComing(s) {
          var h: nat :| At(s, h, Waking) || At(s, h, Reloading) || At(s, h, Swapping);
          if At(s, h, Waking) { a := WakerCanStep(s, h); }
          else if At(s, h, Reloading) { a := Reload(h); }
          else { a := Swap(h); }
        } else {
          var h: nat :| At(s, h, Holding);
          a := Unlock(h);
        }
    }
  }

  lemma StuckIffIdle(s: State)
    requires Inv(s)
    ensures (exists a :: IsProgress(a) && Enabled(s, a)) <==> !AllIdle(s)
  {
    if !AllIdle(s) {
      var t: nat :| t < |s.threads| && !At(s, t, Idle);
      var a := BusyThreadMeansAStep(s, t);
    } else {
      forall a | IsProgress(a) ensures !Enabled(s, a) {
        assert a.t < |s.threads| ==> At(s, a.t, Idle);
      }
    }
  }

  /** From every reachable state, whatever order the scheduler picks, a run with no
      new `lock` calls and no spurious returns takes at most `Rank` steps, and it
      can only stop where every contender has taken and released the lock. */
  lemma LockDrains(n: nat, acts: seq<Action>, more: seq<Action>)
    requires ProgressRun(Run(Init(n), acts), more)
    ensures |more| <= Rank(Run(Init(n), acts))
    ensures
      var final := Run(Run(Init(n), acts), more);
      (exists a :: IsProgress(a) && Enabled(final, a)) <==> !AllIdle(final)
  {
    RunKeepsInv(Init(n), acts);
    ProgressRunsAreBounded(Run(Init(n), acts), more);
    RunKeepsInv(Run(Init(n), acts), more);
    StuckIffIdle(Run(Run(Init(n), acts), more));
  }
}
