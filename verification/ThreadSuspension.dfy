/** Suspending every other thread with a queued signal, moving their instruction pointers
    from overwritten instructions to the copies, and letting them go: the main thread's
    loops and the signal handlers as interleaved atomic steps. */
module ThreadSuspension {
  import opened Results
  import opened Sums

  // ----- relocations

  datatype IpReloc = IpReloc(from: nat, to: nat)

  // `iter().find(|r| ip == r.from)`, `iter().find(|r| ip == r.to)`
  function FindFrom(relocs: seq<IpReloc>, ip: nat): Option<IpReloc> {
    if relocs == [] then None
    else if relocs[0].from == ip then Some(relocs[0])
    else FindFrom(relocs[1..], ip)
  }

  function FindTo(relocs: seq<IpReloc>, ip: nat): Option<IpReloc> {
    if relocs == [] then None
    else if relocs[0].to == ip then Some(relocs[0])
    else FindTo(relocs[1..], ip)
  }

  function MinFrom(relocs: seq<IpReloc>): nat
    requires relocs != []
  {
    if |relocs| == 1 || relocs[0].from < MinFrom(relocs[1..]) then relocs[0].from else MinFrom(relocs[1..])
  }

  function MaxFrom(relocs: seq<IpReloc>): nat
    requires relocs != []
  {
    if |relocs| == 1 || relocs[0].from > MaxFrom(relocs[1..]) then relocs[0].from else MaxFrom(relocs[1..])
  }

  // The new value of a channel, with the precomputed range of relocated addresses.
  function Relocated(relocs: seq<IpReloc>, ip: nat): nat {
    if relocs != [] && MinFrom(relocs) <= ip <= MaxFrom(relocs) then
      match FindFrom(relocs, ip) case Some(r) => r.to case None => ip
    else ip
  }

  function Undone(relocs: seq<IpReloc>, ip: nat): nat {
    match FindTo(relocs, ip) case Some(r) => r.from case None => ip
  }

  // Where a thread goes on that was interrupted at `ip`.
  function Destination(relocs: seq<IpReloc>, undone: bool, ip: nat): nat {
    if undone then Undone(relocs, Relocated(relocs, ip)) else Relocated(relocs, ip)
  }

  lemma {:induction false} FindFromIsInRange(relocs: seq<IpReloc>, ip: nat)
    requires FindFrom(relocs, ip).Some?
    ensures relocs != [] && MinFrom(relocs) <= ip <= MaxFrom(relocs)
  {
    if relocs[0].from != ip {
      FindFromIsInRange(relocs[1..], ip);
    }
  }

  /** The range test in front of the search never changes where an address goes. */
  lemma {:induction false} PrefilterIsTransparent(relocs: seq<IpReloc>, ip: nat)
    ensures Relocated(relocs, ip) == match FindFrom(relocs, ip) case Some(r) => r.to case None => ip
  {
    if FindFrom(relocs, ip).Some? {
      FindFromIsInRange(relocs, ip);
    }
  }

  // The relocation that moves an address away, if any, is the `i`-th.
  ghost predicate MovesAway(relocs: seq<IpReloc>, ip: nat, i: int) {
    && 0 <= i < |relocs| && relocs[i].from == ip
    && forall k :: 0 <= k < i ==> relocs[k].from != ip
  }

  // What the list has to look like for an address to come back: a relocated one has its
  // destination to itself among the relocations up to its own, any other one is nobody's
  // destination.
  ghost predicate ComesBack(relocs: seq<IpReloc>, ip: nat) {
    || (exists i :: MovesAway(relocs, ip, i) && forall k :: 0 <= k < i ==> relocs[k].to != relocs[i].to)
    || (forall r :: r in relocs ==> r.from != ip && r.to != ip)
  }

  lemma {:induction false} FindFromAt(relocs: seq<IpReloc>, ip: nat)
    ensures
      match FindFrom(relocs, ip)
      case Some(r) => exists i :: MovesAway(relocs, ip, i) && relocs[i] == r
      case None => forall r :: r in relocs ==> r.from != ip
  {
    if relocs != [] && relocs[0].from != ip {
      FindFromAt(relocs[1..], ip);
      if FindFrom(relocs, ip).Some? {
        var i :| MovesAway(relocs[1..], ip, i) && relocs[1..][i] == FindFrom(relocs, ip).value;
        assert forall k :: 0 < k < i + 1 ==> relocs[k] == relocs[1..][k - 1];
        assert MovesAway(relocs, ip, i + 1);
      }
    } else if relocs != [] {
      assert MovesAway(relocs, ip, 0);
    }
  }

  lemma {:induction false} FindToAt(relocs: seq<IpReloc>, ip: nat)
    ensures
      match FindTo(relocs, ip)
      case Some(r) => exists i :: 0 <= i < |relocs| && relocs[i] == r && r.to == ip && forall k :: 0 <= k < i ==> relocs[k].to != ip
      case None => forall r :: r in relocs ==> r.to != ip
  {
    if relocs != [] && relocs[0].to != ip {
      FindToAt(relocs[1..], ip);
      if FindTo(relocs, ip).Some? {
        var i :| 0 <= i < |relocs[1..]| && relocs[1..][i] == FindTo(relocs, ip).value
                 && forall k :: 0 <= k < i ==> relocs[1..][k].to != ip;
        assert forall k :: 0 < k < i + 1 ==> relocs[k] == relocs[1..][k - 1];
      }
    }
  }

  /** For any list of relocations, undoing restores an address if and only if it comes
      back by the order of sources and destinations in the list. */
  lemma UndoRestoresExactlyWhen(relocs: seq<IpReloc>, ip: nat)
    ensures Undone(relocs, Relocated(relocs, ip)) == ip <==> ComesBack(relocs, ip)
  {
    PrefilterIsTransparent(relocs, ip);
    FindFromAt(relocs, ip);
    if FindFrom(relocs, ip).Some? {
      var i :| MovesAway(relocs, ip, i) && relocs[i] == FindFrom(relocs, ip).value;
      SourceComesBack(relocs, ip, i);
    } else {
      FindToAt(relocs, ip);
    }
  }

  lemma SourceComesBack(relocs: seq<IpReloc>, ip: nat, i: nat)
    requires MovesAway(relocs, ip, i)
    ensures Undone(relocs, relocs[i].to) == ip <==> forall k :: 0 <= k < i ==> relocs[k].to != relocs[i].to
    ensures ComesBack(relocs, ip) <==> forall k :: 0 <= k < i ==> relocs[k].to != relocs[i].to
  {
    FindToAt(relocs, relocs[i].to);
    assert relocs[i] in relocs;
    forall j | MovesAway(relocs, ip, j) ensures i == j {
    }
  }

  /** The failing input: two sources whose copies start at the same address. A thread at
      the second is put back at the first. */
  lemma SharedDestinationIsNotUndone()
    ensures
      var relocs := [IpReloc(10, 100), IpReloc(12, 100)];
      && Relocated(relocs, 12) == 100 && Undone(relocs, 100) == 10
      && !ComesBack(relocs, 12)
  {
    var relocs := [IpReloc(10, 100), IpReloc(12, 100)];
    assert relocs[1..] == [IpReloc(12, 100)];
    UndoRestoresExactlyWhen(relocs, 12);
  }

  ghost predicate DistinctEnds(relocs: seq<IpReloc>) {
    && (forall i, j :: 0 <= i < j < |relocs| ==> relocs[i].from != relocs[j].from)
    && (forall i, j :: 0 <= i < j < |relocs| ==> relocs[i].to != relocs[j].to)
  }

  /** With distinct sources and distinct destinations, undoing inverts relocating for
      every source and every address that is no destination - and for no other. */
  lemma UndoInvertsRelocation(relocs: seq<IpReloc>, ip: nat)
    requires DistinctEnds(relocs)
    ensures Undone(relocs, Relocated(relocs, ip)) == ip <==>
            (exists r :: r in relocs && r.from == ip) || (forall r :: r in relocs ==> r.to != ip)
  {
    UndoRestoresExactlyWhen(relocs, ip);
    if r :| r in relocs && r.from == ip {
      FindFromAt(relocs, ip);
      assert FindFrom(relocs, ip).Some?;
      var i :| MovesAway(relocs, ip, i);
      SourceComesBack(relocs, ip, i);
    }
  }

  // ----- the protocol

  datatype Phase =
    | Running     // not signalled
    | Queued      // signal queued, handler not entered
    | Counted     // handler decremented the count
    | Published   // handler stored its IP and notified
    | Released    // told to resume
    | Resumed     // handler returned

  datatype Thread = Thread(
    tracked: bool,            // id >= 0
    alive: bool,
    phase: Phase,
    ip: nat,                  // the thread's instruction pointer; in the handler, the interrupted one
    channel: nat)

  datatype Main =
    | Sending(k: nat)
    | Testing
    | Probing(k: nat)
    | Relocating(k: nat)
    | Patching
    | Undoing(k: nat)
    | Resuming(k: nat, undone: bool)
    | Finished(undone: bool)

  datatype State = State(
    threads: seq<Thread>,
    main: Main,
    suspendCount: int,
    suspending: bool,
    relocs: seq<IpReloc>)

  datatype Action =
    | Send(ok: bool)
    | MainStep
    | Detour(ok: bool)
    | Execute(t: nat, ip: nat)
    | Die(t: nat)
    | Handle(t: nat)
    | Publish(t: nat)
    | Resume(t: nat)

  // Without relocations nobody is suspended.
  function Init(ips: seq<nat>, relocs: seq<IpReloc>): State {
    if relocs == [] then State([], Patching, 0, false, relocs)
    else State(seq(|ips|, i requires 0 <= i < |ips| => Thread(true, true, Running, ips[i], 0)),
               Sending(0), |ips|, true, relocs)
  }

  predicate Enabled(s: State, a: Action) {
    match a
    // A dead thread cannot be signalled; a live one may still be refused.
    case Send(ok) => s.main.Sending? && s.main.k < |s.threads| && (ok ==> s.threads[s.main.k].alive)
    case MainStep =>
      (match s.main
       case Sending(k) => k >= |s.threads|
       case Testing => true
       case Probing(_) => true
       case Relocating(k) => k < |s.threads| && s.threads[k].tracked ==> s.threads[k].phase.Published?
       case Patching => false
       case Undoing(k) => k < |s.threads| && s.threads[k].tracked ==> s.threads[k].phase.Published?
       case Resuming(k, _) => k < |s.threads| && s.threads[k].tracked ==> s.threads[k].phase.Published?
       case Finished(_) => false)
    case Detour(_) => s.main.Patching?
    case Execute(t, _) =>
      t < |s.threads| && s.threads[t].alive && (s.threads[t].phase.Running? || s.threads[t].phase.Queued? || s.threads[t].phase.Resumed?)
    case Die(t) => t < |s.threads| && (s.threads[t].phase.Running? || s.threads[t].phase.Queued? || s.threads[t].phase.Resumed?)
    // The installed handler takes part only while a suspension is under way.
    case Handle(t) => t < |s.threads| && s.threads[t].phase.Queued? && s.threads[t].alive && s.suspending
    case Publish(t) => t < |s.threads| && s.threads[t].phase.Counted?
    case Resume(t) => t < |s.threads| && s.threads[t].phase.Released?
  }

  function With(s: State, t: nat, thread: Thread): State
    requires t < |s.threads|
  {
    s.(threads := s.threads[t := thread])
  }

  function MainNext(s: State): State {
    match s.main
    case Sending(k) => s.(main := Testing)
    case Testing => if s.suspendCount == 0 then s.(main := Relocating(0), suspending := false) else s.(main := Probing(0))
    case Probing(k) =>
      if k >= |s.threads| then s.(main := Testing)
      // The probe, a signal number of 0, is refused exactly for a dead thread.
      else if s.threads[k].tracked && !s.threads[k].alive then
        With(s, k, s.threads[k].(tracked := false)).(suspendCount := s.suspendCount - 1, main := Probing(k + 1))
      else s.(main := Probing(k + 1))
    case Relocating(k) =>
      if k >= |s.threads| then s.(main := Patching)
      else if s.threads[k].tracked then
        With(s, k, s.threads[k].(channel := Relocated(s.relocs, s.threads[k].channel))).(main := Relocating(k + 1))
      else s.(main := Relocating(k + 1))
    case Undoing(k) =>
      if k >= |s.threads| then s.(main := Resuming(0, true))
      else if s.threads[k].tracked then
        With(s, k, s.threads[k].(channel := Undone(s.relocs, s.threads[k].channel))).(main := Undoing(k + 1))
      else s.(main := Undoing(k + 1))
    case Resuming(k, undone) =>
      if k >= |s.threads| then s.(main := Finished(undone))
      else if s.threads[k].tracked then
        With(s, k, s.threads[k].(phase := Released)).(main := Resuming(k + 1, undone))
      else s.(main := Resuming(k + 1, undone))
    case _ => s
  }

  function Next(s: State, a: Action): State {
    if !Enabled(s, a) then s else
      match a
      case Send(ok) =>
        var k := s.main.k;
        if ok then With(s, k, s.threads[k].(phase := Queued)).(main := Sending(k + 1))
        else With(s, k, s.threads[k].(tracked := false)).(suspendCount := s.suspendCount - 1, main := Sending(k + 1))
      case MainStep => MainNext(s)
      case Detour(ok) => s.(main := if ok then Resuming(0, false) else Undoing(0))
      case Execute(t, ip) => With(s, t, s.threads[t].(ip := ip))
      case Die(t) => With(s, t, s.threads[t].(alive := false))
      case Handle(t) =>
        With(s, t, s.threads[t].(phase := Counted)).(suspendCount := s.suspendCount - 1)
      case Publish(t) => With(s, t, s.threads[t].(phase := Published, channel := s.threads[t].ip))
      case Resume(t) => With(s, t, s.threads[t].(phase := Resumed, ip := s.threads[t].channel))
  }

  function Run(s: State, acts: seq<Action>): State
    decreases |acts|
  {
    if acts == [] then s else Run(Next(s, acts[0]), acts[1..])
  }

  // ----- the invariant

  function Unaccounted(t: Thread): nat {
    if t.tracked && (t.phase.Running? || t.phase.Queued?) then 1 else 0
  }

  predicate Collecting(main: Main) {
    main.Sending? || main.Testing? || main.Probing?
  }

  predicate InHandler(t: Thread) {
    t.phase.Counted? || t.phase.Published?
  }

  predicate LetGo(t: Thread) {
    t.phase.Released? || t.phase.Resumed?
  }

  // What the j-th channel holds once it was filled.
  function ChannelValue(s: State, j: nat, ip: nat): nat {
    var moved := Relocated(s.relocs, ip);
    match s.main
    case Relocating(k) => if j < k then moved else ip
    case Patching => moved
    case Undoing(k) => if j < k then Undone(s.relocs, moved) else moved
    case Resuming(_, undone) => Destination(s.relocs, undone, ip)
    case Finished(undone) => Destination(s.relocs, undone, ip)
    case _ => ip
  }

  // The handler is done with its part before the main thread looks at the channel.
  predicate MustBePublished(s: State, j: nat) {
    match s.main
    case Relocating(k) => j < k
    case Patching => true
    case Undoing(_) => true
    case Resuming(_, _) => true
    case Finished(_) => true
    case _ => false
  }

  predicate ThreadOk(s: State, j: nat)
    requires j < |s.threads|
  {
    var t := s.threads[j];
    && (t.phase.Queued? && t.alive ==> t.tracked)
    && (!t.tracked ==> t.phase.Running? || t.phase.Queued?)
    && (InHandler(t) || t.phase.Released? ==> t.alive)
    && (s.main.Sending? ==> if j < s.main.k then t.tracked ==> !t.phase.Running? else t.phase.Running? && t.tracked)
    && (s.main.Testing? || s.main.Probing? ==> t.tracked ==> !t.phase.Running?)
    && (!Collecting(s.main) && t.tracked ==> InHandler(t) || LetGo(t))
    && (MustBePublished(s, j) && t.tracked ==> !t.phase.Counted?)
    && (t.tracked ==> (LetGo(t) <==> s.main.Finished? || (s.main.Resuming? && j < s.main.k)))
    && (t.phase.Published? || t.phase.Released? ==> t.channel == ChannelValue(s, j, t.ip))
  }

  ghost predicate Inv(s: State) {
    && (s.suspending <==> Collecting(s.main))
    && s.suspendCount == Sum(s.threads, Unaccounted)
    && (s.main.Sending? ==> s.main.k <= |s.threads|)
    && (forall j {:trigger ThreadOk(s, j)} :: 0 <= j < |s.threads| ==> ThreadOk(s, j))
  }

  // The thread a step changes, if any.
  function Touched(s: State, a: Action): nat {
    match a
    case Send(_) => if s.main.Sending? then s.main.k else 0
    case MainStep =>
      (match s.main
       case Probing(k) => k
       case Relocating(k) => k
       case Undoing(k) => k
       case Resuming(k, _) => k
       case _ => 0)
    case Detour(_) => 0
    case Execute(t, _) => t
    case Die(t) => t
    case Handle(t) => t
    case Publish(t) => t
    case Resume(t) => t
  }

  lemma OtherThreadsKeep(s: State, a: Action, j: nat)
    ensures |Next(s, a).threads| == |s.threads|
    ensures j < |s.threads| && j != Touched(s, a) ==> Next(s, a).threads[j] == s.threads[j]
  {
  }

  lemma CountFollows(s: State, a: Action)
    requires Inv(s) && Enabled(s, a)
    ensures Next(s, a).suspendCount == Sum(Next(s, a).threads, Unaccounted)
  {
    var s' := Next(s, a);
    var t := Touched(s, a);
    if t < |s.threads| {
      assert ThreadOk(s, t);
      SumUpdate(s.threads, Unaccounted, t, s'.threads[t]);
      assert s'.threads == s.threads[t := s'.threads[t]];
    }
  }

  lemma NobodyIsPending(s: State, j: nat)
    requires s.suspendCount == 0 && s.suspendCount == Sum(s.threads, Unaccounted) && j < |s.threads|
    ensures Unaccounted(s.threads[j]) == 0
  {
    SumIsAtLeast(s.threads, Unaccounted, j);
  }

  lemma ThreadStepKeepsThread(s: State, a: Action, j: nat)
    requires Inv(s) && Enabled(s, a) && j < |s.threads| && !a.Send? && !a.MainStep? && !a.Detour?
    ensures ThreadOk(Next(s, a), j)
  {
    assert ThreadOk(s, j);
    OtherThreadsKeep(s, a, j);
  }

  lemma MainStepKeepsThread(s: State, a: Action, j: nat)
    requires Inv(s) && Enabled(s, a) && j < |s.threads| && (a.Send? || a.MainStep? || a.Detour?)
    ensures ThreadOk(Next(s, a), j)
  {
    assert ThreadOk(s, j);
    OtherThreadsKeep(s, a, j);
    if s.main.Testing? && s.suspendCount == 0 {
      NobodyIsPending(s, j);
    }
  }

  lemma NextKeepsInv(s: State, a: Action)
    requires Inv(s)
    ensures Inv(Next(s, a))
  {
    if Enabled(s, a) {
      var s' := Next(s, a);
      CountFollows(s, a);
      forall j | 0 <= j < |s'.threads| ensures ThreadOk(s', j) {
        OtherThreadsKeep(s, a, j);
        if a.Send? || a.MainStep? || a.Detour? {
          MainStepKeepsThread(s, a, j);
        } else {
          ThreadStepKeepsThread(s, a, j);
        }
      }
    }
  }

  lemma {:induction false} AllUnaccounted(threads: seq<Thread>)
    requires forall t :: t in threads ==> Unaccounted(t) == 1
    ensures Sum(threads, Unaccounted) == |threads|
  {
    if threads != [] {
      AllUnaccounted(threads[1..]);
    }
  }

  lemma InitIsOk(ips: seq<nat>, relocs: seq<IpReloc>)
    ensures Inv(Init(ips, relocs))
  {
    if relocs != [] {
      AllUnaccounted(Init(ips, relocs).threads);
    }
  }

  lemma {:induction false} RunKeepsInv(s: State, acts: seq<Action>)
    requires Inv(s)
    ensures Inv(Run(s, acts)) && Run(s, acts).relocs == s.relocs
    decreases |acts|
  {
    if acts != [] {
      NextKeepsInv(s, acts[0]);
      RunKeepsInv(Next(s, acts[0]), acts[1..]);
    }
  }

  // ----- what every run guarantees

  /** The count is always the number of listed threads not yet accounted for, and no
      step un-accounts a thread: each is subtracted exactly once, by its handler, by a
      failed send or by a failed probe. */
  lemma CountIsExact(ips: seq<nat>, relocs: seq<IpReloc>, acts: seq<Action>, a: Action, j: nat)
    ensures
      var s := Run(Init(ips, relocs), acts);
      && s.suspendCount == Sum(s.threads, Unaccounted)
      && (j < |s.threads| ==> Unaccounted(Next(s, a).threads[j]) <= Unaccounted(s.threads[j]))
      && Next(s, a).suspendCount == Sum(Next(s, a).threads, Unaccounted)
  {
    InitIsOk(ips, relocs);
    RunKeepsInv(Init(ips, relocs), acts);
    var s := Run(Init(ips, relocs), acts);
    NextKeepsInv(s, a);
    if j < |s.threads| {
      assert ThreadOk(s, j);
      OtherThreadsKeep(s, a, j);
    }
  }

  /** Once all are collected, every thread with a valid id is inside the handler and
      stays there until the main thread resumes it. */
  lemma SuspendedUntilResumed(ips: seq<nat>, relocs: seq<IpReloc>, acts: seq<Action>, j: nat)
    requires
      var s := Run(Init(ips, relocs), acts);
      !Collecting(s.main) && j < |s.threads| && s.threads[j].tracked
    ensures
      var s := Run(Init(ips, relocs), acts);
      InHandler(s.threads[j]) <==> !(s.main.Finished? || (s.main.Resuming? && j < s.main.k))
  {
    InitIsOk(ips, relocs);
    RunKeepsInv(Init(ips, relocs), acts);
    assert ThreadOk(Run(Init(ips, relocs), acts), j);
  }

  // In the handler a thread stays at the instruction it was interrupted at.
  lemma {:induction false} FrozenInHandler(s: State, acts: seq<Action>, j: nat)
    requires Inv(s) && j < |s.threads| && (InHandler(s.threads[j]) || s.threads[j].phase.Released?)
    ensures
      var t := Run(s, acts).threads;
      && |t| == |s.threads|
      && (t[j].phase.Resumed? || ((InHandler(t[j]) || t[j].phase.Released?) && t[j].ip == s.threads[j].ip))
    decreases |acts|
  {
    if acts != [] {
      NextKeepsInv(s, acts[0]);
      StaysInHandler(s, acts[0], j);
      if Next(s, acts[0]).threads[j].phase.Resumed? {
        ResumedStays(Next(s, acts[0]), acts[1..], j);
      } else {
        FrozenInHandler(Next(s, acts[0]), acts[1..], j);
      }
    }
  }

  lemma StaysInHandler(s: State, a: Action, j: nat)
    requires Inv(s) && j < |s.threads| && (InHandler(s.threads[j]) || s.threads[j].phase.Released?)
    ensures
      var t := Next(s, a).threads;
      && |t| == |s.threads|
      && (t[j].phase.Resumed? || ((InHandler(t[j]) || t[j].phase.Released?) && t[j].ip == s.threads[j].ip))
  {
    assert ThreadOk(s, j);
    OtherThreadsKeep(s, a, j);
  }

  lemma {:induction false} ResumedStays(s: State, acts: seq<Action>, j: nat)
    requires Inv(s) && j < |s.threads| && s.threads[j].phase.Resumed?
    ensures |Run(s, acts).threads| == |s.threads| && Run(s, acts).threads[j].phase.Resumed?
    decreases |acts|
  {
    if acts != [] {
      assert ThreadOk(s, j);
      OtherThreadsKeep(s, acts[0], j);
      NextKeepsInv(s, acts[0]);
      ResumedStays(Next(s, acts[0]), acts[1..], j);
    }
  }

  /** The step in which a thread leaves the handler sets its instruction pointer to where
      it was interrupted, moved by the relocations - and moved back if the patch failed. */
  lemma ResumesAtRelocatedAddress(ips: seq<nat>, relocs: seq<IpReloc>, acts: seq<Action>, j: nat)
    requires Enabled(Run(Init(ips, relocs), acts), Resume(j))
    ensures
      var s := Run(Init(ips, relocs), acts);
      && (s.main.Resuming? || s.main.Finished?)
      && Next(s, Resume(j)).threads[j].phase.Resumed?
      && Next(s, Resume(j)).threads[j].ip == Destination(relocs, s.main.undone, s.threads[j].ip)
  {
    InitIsOk(ips, relocs);
    RunKeepsInv(Init(ips, relocs), acts);
    assert ThreadOk(Run(Init(ips, relocs), acts), j);
  }

  /** From the step into the handler to the step out of it: the instruction pointer does not
      change in between, and leaves as the destination of where the thread entered. */
  lemma EntryDecidesExit(ips: seq<nat>, relocs: seq<IpReloc>, before: seq<Action>, during: seq<Action>, j: nat)
    requires Enabled(Run(Init(ips, relocs), before), Handle(j))
    requires Enabled(Run(Next(Run(Init(ips, relocs), before), Handle(j)), during), Resume(j))
    ensures
      var entry := Run(Init(ips, relocs), before);
      var exit := Run(Next(entry, Handle(j)), during);
      && exit.threads[j].ip == entry.threads[j].ip
      && (exit.main.Resuming? || exit.main.Finished?)
      && Next(exit, Resume(j)).threads[j].ip == Destination(relocs, exit.main.undone, entry.threads[j].ip)
  {
    var entry := Run(Init(ips, relocs), before);
    InitIsOk(ips, relocs);
    RunKeepsInv(Init(ips, relocs), before);
    NextKeepsInv(entry, Handle(j));
    FrozenInHandler(Next(entry, Handle(j)), during, j);
    RunConcat(Init(ips, relocs), before, [Handle(j)] + during);
    assert ([Handle(j)] + during)[1..] == during;
    ResumesAtRelocatedAddress(ips, relocs, before + ([Handle(j)] + during), j);
  }

  /** So a failed patch leaves a thread where it was if and only if its address comes
      back - with distinct ends, if it stood at a source or not at a destination. */
  lemma FailedPatchMovesNobody(ips: seq<nat>, relocs: seq<IpReloc>, acts: seq<Action>, j: nat)
    requires
      var s := Run(Init(ips, relocs), acts);
      Enabled(s, Resume(j)) && (s.main.Resuming? || s.main.Finished? ==> s.main.undone)
    ensures
      var s := Run(Init(ips, relocs), acts);
      var (ip, ip') := (s.threads[j].ip, Next(s, Resume(j)).threads[j].ip);
      && (ip' == ip <==> ComesBack(relocs, ip))
      && (DistinctEnds(relocs) ==>
            (ip' == ip <==> (exists r :: r in relocs && r.from == ip) || (forall r :: r in relocs ==> r.to != ip)))
  {
    var ip := Run(Init(ips, relocs), acts).threads[j].ip;
    ResumesAtRelocatedAddress(ips, relocs, acts, j);
    UndoRestoresExactlyWhen(relocs, ip);
    if DistinctEnds(relocs) {
      UndoInvertsRelocation(relocs, ip);
    }
  }

  lemma {:induction false} RunConcat(s: State, acts: seq<Action>, more: seq<Action>)
    ensures Run(s, acts + more) == Run(Run(s, acts), more)
    decreases |acts|
  {
    if acts == [] {
      assert acts + more == more;
    } else {
      assert (acts + more)[1..] == acts[1..] + more;
      RunConcat(Next(s, acts[0]), acts[1..], more);
    }
  }

  // Whether the relocations are being or have been undone, once the patch was tried.
  function Verdict(main: Main): Option<bool> {
    match main
    case Undoing(_) => Some(true)
    case Resuming(_, undone) => Some(undone)
    case Finished(undone) => Some(undone)
    case _ => None
  }

  lemma {:induction false} VerdictStays(s: State, acts: seq<Action>)
    requires Verdict(s.main).Some?
    ensures Verdict(Run(s, acts).main) == Verdict(s.main)
    decreases |acts|
  {
    if acts != [] {
      VerdictStays(Next(s, acts[0]), acts[1..]);
    }
  }

  // Every thread that leaves the handler on this way leaves for its destination.
  ghost predicate LeaveFor(s: State, acts: seq<Action>, relocs: seq<IpReloc>, undone: bool)
    decreases |acts|
  {
    acts != [] ==>
      && (acts[0].Resume? && Enabled(s, acts[0]) ==>
            Next(s, acts[0]).threads[acts[0].t].ip == Destination(relocs, undone, s.threads[acts[0].t].ip))
      && LeaveFor(Next(s, acts[0]), acts[1..], relocs, undone)
  }

  lemma {:induction false} LeavesAt(s: State, acts: seq<Action>, relocs: seq<IpReloc>, undone: bool, n: nat)
    requires LeaveFor(s, acts, relocs, undone) && n < |acts|
    requires acts[n].Resume? && Enabled(Run(s, acts[..n]), acts[n])
    ensures
      var at := Run(s, acts[..n]);
      Next(at, acts[n]).threads[acts[n].t].ip == Destination(relocs, undone, at.threads[acts[n].t].ip)
    decreases n
  {
    if n > 0 {
      assert acts[..n][1..] == acts[1..][..n - 1] && acts[..n][0] == acts[0];
      LeavesAt(Next(s, acts[0]), acts[1..], relocs, undone, n - 1);
    }
  }

  lemma {:induction false} VerdictDecides(ips: seq<nat>, relocs: seq<IpReloc>, acts: seq<Action>, undone: bool, more: seq<Action>)
    requires Verdict(Run(Init(ips, relocs), acts).main) == Some(undone)
    ensures LeaveFor(Run(Init(ips, relocs), acts), more, relocs, undone)
    decreases |more|
  {
    if more != [] {
      var s := Run(Init(ips, relocs), acts);
      if more[0].Resume? && Enabled(s, more[0]) {
        ResumesAtRelocatedAddress(ips, relocs, acts, more[0].t);
      }
      RunConcat(Init(ips, relocs), acts, [more[0]]);
      assert [more[0]][1..] == [] && Run(s, [more[0]]) == Run(Next(s, more[0]), []);
      VerdictStays(s, [more[0]]);
      VerdictDecides(ips, relocs, acts + [more[0]], undone, more[1..]);
    }
  }

  /** The exchange made under suspension decides where the threads go on: at the copies if
      it succeeded, and with the relocations undone if it failed. */
  lemma ExchangeDecides(ips: seq<nat>, relocs: seq<IpReloc>, before: seq<Action>, patched: bool, after: seq<Action>)
    requires Run(Init(ips, relocs), before).main.Patching?
    ensures LeaveFor(Next(Run(Init(ips, relocs), before), Detour(patched)), after, relocs, !patched)
  {
    var s := Run(Init(ips, relocs), before);
    RunConcat(Init(ips, relocs), before, [Detour(patched)]);
    assert [Detour(patched)][1..] == [] && Run(s, [Detour(patched)]) == Run(Next(s, Detour(patched)), []);
    VerdictDecides(ips, relocs, before + [Detour(patched)], !patched, after);
  }

  /** A thread is taken off the list only because its signal was refused or it has died; a
      live one whose signal was sent enters the handler if it goes on at all. */
  lemma UntrackedForACause(s: State, a: Action, j: nat)
    requires Inv(s) && j < |s.threads|
    ensures s.threads[j].tracked && !Next(s, a).threads[j].tracked ==>
              (a == Send(false) && s.main == Sending(j)) || !s.threads[j].alive
    ensures a == Send(true) && s.main == Sending(j) && Enabled(s, a) ==>
              Next(s, a).threads[j].tracked && Next(s, a).threads[j].phase.Queued?
    ensures a == Handle(j) && Enabled(s, a) ==>
              InHandler(Next(s, a).threads[j]) && Next(s, a).threads[j].ip == s.threads[j].ip
  {
    assert ThreadOk(s, j);
    OtherThreadsKeep(s, a, j);
  }

  /** A live thread's queued signal always finds the suspension still under way, so the
      handler takes part in it and the counter it upgrades still exists. */
  lemma QueuedSignalsAreNeverStray(ips: seq<nat>, relocs: seq<IpReloc>, acts: seq<Action>, j: nat)
    requires
      var s := Run(Init(ips, relocs), acts);
      j < |s.threads| && s.threads[j].phase.Queued? && s.threads[j].alive
    ensures
      var s := Run(Init(ips, relocs), acts);
      s.suspending && s.suspendCount > 0 && Enabled(s, Handle(j))
  {
    InitIsOk(ips, relocs);
    RunKeepsInv(Init(ips, relocs), acts);
    var s := Run(Init(ips, relocs), acts);
    assert ThreadOk(s, j);
    SumIsAtLeast(s.threads, Unaccounted, j);
  }

  /** The spin loop waits for a reason: some listed thread can still enter the handler,
      or has died and the next pass of probes takes it off the count. */
  lemma SpinLoopHasACause(ips: seq<nat>, relocs: seq<IpReloc>, acts: seq<Action>) returns (j: nat)
    requires
      var s := Run(Init(ips, relocs), acts);
      (s.main.Testing? || s.main.Probing?) && s.suspendCount != 0
    ensures
      var s := Run(Init(ips, relocs), acts);
      && j < |s.threads| && s.threads[j].tracked
      && if s.threads[j].alive then Enabled(s, Handle(j))
         else MainNext(s.(main := Probing(j))).suspendCount == s.suspendCount - 1
  {
    InitIsOk(ips, relocs);
    RunKeepsInv(Init(ips, relocs), acts);
    var s := Run(Init(ips, relocs), acts);
    j := PositiveSumHasWitness(s.threads, Unaccounted);
    assert ThreadOk(s, j);
  }

  // ----- progress

  // Steps other than the spin itself and what the threads do on their own.
  predicate IsProgress(s: State, a: Action) {
    Enabled(s, a) &&
    match a
    case Execute(_, _) => false
    case Die(_) => false
    case MainStep =>
      (match s.main
       case Testing => s.suspendCount == 0
       case Probing(k) => k < |s.threads| && s.threads[k].tracked && !s.threads[k].alive
       case _ => true)
    case _ => true
  }

  function ThreadLeft(t: Thread): nat {
    (if t.tracked then 1 else 0) +
    match t.phase
    case Running => 5
    case Queued => 4
    case Counted => 3
    case Published => 2
    case Released => 1
    case Resumed => 0
  }

  function Remaining(n: nat, k: nat): nat {
    if k < n then n - k else 0
  }

  function MainLeft(s: State): nat {
    var n := |s.threads|;
    match s.main
    case Sending(k) => 5 * (n + 1) + 1 + Remaining(n, k)
    case Testing => 4 * (n + 1) + 1
    case Probing(_) => 4 * (n + 1) + 1
    case Relocating(k) => 3 * (n + 1) + 1 + Remaining(n, k)
    case Patching => 3 * (n + 1)
    case Undoing(k) => n + 2 + Remaining(n, k)
    case Resuming(k, _) => 1 + Remaining(n, k)
    case Finished(_) => 0
  }

  function Rank(s: State): nat {
    MainLeft(s) + Sum(s.threads, ThreadLeft)
  }

  // What a step does to the main thread's share and to the share of the thread it touches.
  lemma SharesAfter(s: State, a: Action)
    requires Inv(s) && Enabled(s, a)
    ensures
      var (s', t) := (Next(s, a), Touched(s, a));
      var (was, now) := if t < |s.threads| then (ThreadLeft(s.threads[t]), ThreadLeft(s'.threads[t])) else (0, 0);
      if IsProgress(s, a) then MainLeft(s') + now < MainLeft(s) + was else MainLeft(s') + now <= MainLeft(s) + was
  {
    if Touched(s, a) < |s.threads| {
      assert ThreadOk(s, Touched(s, a));
    }
    OtherThreadsKeep(s, a, Touched(s, a));
  }

  lemma StepAndRank(s: State, a: Action)
    requires Inv(s)
    ensures if IsProgress(s, a) then Rank(Next(s, a)) < Rank(s) else Rank(Next(s, a)) <= Rank(s)
  {
    if Enabled(s, a) {
      SharesAfter(s, a);
      OnlyTouchedCounts(s, a);
    }
  }

  lemma OnlyTouchedCounts(s: State, a: Action)
    ensures
      var (s', t) := (Next(s, a), Touched(s, a));
      && |s'.threads| == |s.threads|
      && if t < |s.threads| then
           Sum(s'.threads, ThreadLeft) + ThreadLeft(s.threads[t]) == Sum(s.threads, ThreadLeft) + ThreadLeft(s'.threads[t])
         else Sum(s'.threads, ThreadLeft) == Sum(s.threads, ThreadLeft)
  {
    var (s', t) := (Next(s, a), Touched(s, a));
    forall j: nat | j < |s.threads| && j != t ensures s'.threads[j] == s.threads[j] {
      OtherThreadsKeep(s, a, j);
    }
    OtherThreadsKeep(s, a, t);
    if t < |s.threads| {
      SumUpdate(s.threads, ThreadLeft, t, s'.threads[t]);
      assert s'.threads == s.threads[t := s'.threads[t]];
    } else {
      assert s'.threads == s.threads;
    }
  }

  function ProgressSteps(s: State, acts: seq<Action>): nat
    decreases |acts|
  {
    if acts == [] then 0
    else (if IsProgress(s, acts[0]) then 1 else 0) + ProgressSteps(Next(s, acts[0]), acts[1..])
  }

  lemma {:induction false} ProgressIsBounded(s: State, acts: seq<Action>)
    requires Inv(s)
    ensures ProgressSteps(s, acts) + Rank(Run(s, acts)) <= Rank(s)
    decreases |acts|
  {
    if acts != [] {
      StepAndRank(s, acts[0]);
      NextKeepsInv(s, acts[0]);
      ProgressIsBounded(Next(s, acts[0]), acts[1..]);
    }
  }

  predicate AllGone(s: State) {
    s.main.Finished? && forall j :: 0 <= j < |s.threads| && s.threads[j].tracked ==> s.threads[j].phase.Resumed?
  }

  function MainSteps(m: nat): seq<Action> {
    seq(m, _ => MainStep)
  }

  // How many steps of the spin lead from here to the probe of the j-th thread.
  function SpinTo(s: State, j: nat): nat
    requires s.main.Testing? || s.main.Probing?
  {
    match s.main
    case Testing => 1 + j
    case Probing(k) => if k <= j then j - k else Remaining(|s.threads|, k) + 2 + j
    case _ => 0
  }

  lemma {:induction false} SpinFindsTheDead(s: State, j: nat) returns (m: nat)
    requires Inv(s) && (s.main.Testing? || s.main.Probing?)
    requires j < |s.threads| && s.threads[j].tracked && !s.threads[j].alive && s.suspendCount != 0
    ensures m <= SpinTo(s, j) && IsProgress(Run(s, MainSteps(m)), MainStep)
    decreases SpinTo(s, j)
  {
    m := 0;
    if !IsProgress(s, MainStep) {
      var s' := Next(s, MainStep);
      NextKeepsInv(s, MainStep);
      var rest := SpinFindsTheDead(s', j);
      m := rest + 1;
      assert MainSteps(m)[1..] == MainSteps(rest);
    }
  }

  lemma StuckThreadsAreDead(s: State) returns (j: nat)
    requires Inv(s) && (s.main.Testing? || s.main.Probing?) && s.suspendCount != 0
    ensures j < |s.threads| && s.threads[j].tracked
    ensures if s.threads[j].alive then IsProgress(s, Handle(j)) else s.threads[j].tracked
  {
    j := PositiveSumHasWitness(s.threads, Unaccounted);
    assert ThreadOk(s, j);
  }

  // A step that is due, perhaps after some turns of the spin.
  ghost predicate Due(s: State, m: nat, a: Action) {
    m <= 2 * |s.threads| + 3 && IsProgress(Run(s, MainSteps(m)), a) && (m > 0 ==> s.main.Testing? || s.main.Probing?)
  }

  // While the main thread waits for a channel, its thread is about to fill it.
  lemma WaitedThreadPublishes(s: State, k: nat)
    requires Inv(s) && k < |s.threads| && s.threads[k].tracked && !s.threads[k].phase.Published?
    requires s.main == Relocating(k) || s.main == Undoing(k) || exists u :: s.main == Resuming(k, u)
    ensures IsProgress(s, Publish(k))
  {
    assert ThreadOk(s, k);
  }

  lemma ReleasedThreadResumes(s: State) returns (j: nat)
    requires Inv(s) && s.main.Finished? && !AllGone(s)
    ensures IsProgress(s, Resume(j))
  {
    j :| 0 <= j < |s.threads| && s.threads[j].tracked && !s.threads[j].phase.Resumed?;
    assert ThreadOk(s, j);
  }

  lemma NeverStuck(s: State) returns (m: nat, a: Action)
    requires Inv(s) && !AllGone(s)
    ensures Due(s, m, a)
  {
    m, a := 0, MainStep;
    match s.main {
      case Sending(k) => a := if k < |s.threads| then Send(false) else MainStep;
      case Patching => a := Detour(true);
      case Finished(_) => var j := ReleasedThreadResumes(s); a := Resume(j);
      case Relocating(k) =>
        if k < |s.threads| && s.threads[k].tracked && !s.threads[k].phase.Published? { WaitedThreadPublishes(s, k); a := Publish(k); }
      case Undoing(k) =>
        if k < |s.threads| && s.threads[k].tracked && !s.threads[k].phase.Published? { WaitedThreadPublishes(s, k); a := Publish(k); }
      case Resuming(k, _) =>
        if k < |s.threads| && s.threads[k].tracked && !s.threads[k].phase.Published? { WaitedThreadPublishes(s, k); a := Publish(k); }
      case _ =>
        if s.suspendCount == 0 {
          m, a := SpinEnds(s);
        } else {
          var j := StuckThreadsAreDead(s);
          if s.threads[j].alive { a := Handle(j); } else { m := SpinFindsTheDead(s, j); }
        }
    }
  }

  // With nobody left to wait for, the pass of probes ends and the test succeeds.
  lemma {:induction false} SpinEnds(s: State) returns (m: nat, a: Action)
    requires Inv(s) && (s.main.Testing? || s.main.Probing?) && s.suspendCount == 0
    ensures m <= |s.threads| + 1 && a == MainStep && IsProgress(Run(s, MainSteps(m)), a)
    ensures s.main.Probing? ==> m <= Remaining(|s.threads|, s.main.k) + 1
    ensures s.main.Testing? ==> m == 0
    decreases if s.main.Probing? then Remaining(|s.threads|, s.main.k) + 1 else 0
  {
    m, a := 0, MainStep;
    if !IsProgress(s, MainStep) {
      NextKeepsInv(s, MainStep);
      var rest, b := SpinEnds(Next(s, MainStep));
      m := rest + 1;
      assert MainSteps(m)[1..] == MainSteps(rest);
    }
  }

  /** Whatever the threads do on their own: the steps of the protocol other than the spin
      itself are bounded, and until every tracked thread has gone on, one of them is
      enabled - after at most two passes of the spin. */
  lemma SuspensionCompletes(ips: seq<nat>, relocs: seq<IpReloc>, acts: seq<Action>)
    ensures ProgressSteps(Init(ips, relocs), acts) <= Rank(Init(ips, relocs))
    ensures
      var s := Run(Init(ips, relocs), acts);
      AllGone(s) || exists m, a :: Due(s, m, a)
  {
    InitIsOk(ips, relocs);
    ProgressIsBounded(Init(ips, relocs), acts);
    RunKeepsInv(Init(ips, relocs), acts);
    var s := Run(Init(ips, relocs), acts);
    if !AllGone(s) {
      var m, a := NeverStuck(s);
    }
  }
}
