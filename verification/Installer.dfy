/** Installing a hook: build thunk and copies, patch the site, register the thunk - or give
    everything back. What others write to the code is a parameter. */
module Installer {
  import opened Results
  import opened Rounding
  import opened Searching
  import opened Ranges
  import opened RangeAllocator
  import opened MemoryRegions
  import opened OsMemory
  import opened ShortJump
  import opened HookSites
  import opened ThunkTables
  import opened Trampolines
  import Threads = ThreadSuspension

  // ----- the code

  function Disturbed(code: seq<byte>, at: nat, written: Option<seq<byte>>): (r: seq<byte>)
    requires at + DISASM_LEN <= |code| && (written.Some? ==> |written.value| == DISASM_LEN)
  {
    match written
    case None => code
    case Some(w) => code[..at] + w + code[at + DISASM_LEN..]
  }

  function Patched(code: seq<byte>, at: nat, jmp: seq<byte>): seq<byte>
    requires |jmp| == JMP_LEN && at + JMP_LEN <= |code|
  {
    code[..at] + jmp + code[at + JMP_LEN..]
  }

  // The process's code, from the address `base` on. Others may write to it, too.
  class Code {
    const base: nat
    const bytes: array<byte>
    ghost var content: seq<byte>
    // The functions whose entries were exchanged here, in that order.
    ghost var patches: seq<nat>

    ghost predicate Valid()
      reads this, bytes
    {
      |content| == bytes.Length && forall i {:trigger bytes[i]} :: 0 <= i < bytes.Length ==> content[i] == bytes[i]
    }

    constructor (base: nat, bytes: array<byte>)
      ensures Valid() && this.base == base && this.bytes == bytes && patches == []
    {
      this.base, this.bytes, content, patches := base, bytes, bytes[..], [];
    }

    predicate Holds(target: nat) {
      base <= target && target + DISASM_LEN <= base + bytes.Length
    }

    // What others leave at the site between reading it and exchanging its word.
    method Disturb(target: nat, written: Option<seq<byte>>)
      requires Valid() && Holds(target) && (written.Some? ==> |written.value| == DISASM_LEN)
      modifies this`content, bytes
      ensures Valid() && content == Disturbed(old(content), target - base, written)
    {
      if written.Some? {
        forall i | 0 <= i < DISASM_LEN {
          bytes[target - base + i] := written.value[i];
        }
        content := Disturbed(content, target - base, written);
      }
    }

    // The one place where a function's entry is patched.
    method Exchange(target: nat, site: seq<byte>, jmp: seq<byte>) returns (patched: bool)
      requires Valid() && Holds(target) && |site| == DISASM_LEN && |jmp| == JMP_LEN
      modifies this, bytes
      ensures Valid() && (patched <==> old(content)[target - base..target - base + CMPXCHG_LEN] == site[..CMPXCHG_LEN])
      ensures content == if patched then Patched(old(content), target - base, jmp) else old(content)
      ensures patches == old(patches) + if patched then [target] else []
    {
      assert content == bytes[..];
      patched := Detour(bytes, target - base, site, jmp);
      content := bytes[..];
      if patched {
        patches := patches + [target];
      }
    }
  }

  // ----- what one attempt leaves behind

  // The other threads around one exchange: where they are, and what they and the protocol
  // do until the exchange is due and after it.
  datatype Suspension = Suspension(ips: seq<nat>, before: seq<Threads.Action>, after: seq<Threads.Action>)

  // Facts of one attempt that come from outside.
  datatype Attempt = Attempt(
    accessible: bool,                 // could the site be made writable
    beforeFast: Option<seq<byte>>,    // what others write to the site before each exchange
    beforeSlow: Option<seq<byte>>,
    suspension: Option<Suspension>)   // None if suspending the other threads fails

  predicate AttemptOk(a: Attempt) {
    && (a.beforeFast.Some? ==> |a.beforeFast.value| == DISASM_LEN)
    && (a.beforeSlow.Some? ==> |a.beforeSlow.value| == DISASM_LEN)
  }

  // The threads have been collected, and the exchange is due.
  predicate IsSuspended(s: Suspension, relocs: seq<Threads.IpReloc>) {
    Threads.Run(Threads.Init(s.ips, relocs), s.before).main.Patching?
  }

  // One exchange under suspension.
  datatype Episode = Episode(suspension: Suspension, relocs: seq<Threads.IpReloc>, patched: bool)

  // The threads and the protocol right after the exchange.
  ghost function AfterExchange(e: Episode): Threads.State {
    Threads.Next(Threads.Run(Threads.Init(e.suspension.ips, e.relocs), e.suspension.before), Threads.Detour(e.patched))
  }

  // Every thread that leaves the handler from then on leaves for its copy, or - after a
  // failed exchange - with the relocation undone.
  ghost predicate EpisodeOk(e: Episode) {
    IsSuspended(e.suspension, e.relocs) && Threads.LeaveFor(AfterExchange(e), e.suspension.after, e.relocs, !e.patched)
  }

  lemma EpisodeFollowsTheExchange(s: Suspension, relocs: seq<Threads.IpReloc>, patched: bool)
    requires IsSuspended(s, relocs)
    ensures EpisodeOk(Episode(s, relocs, patched))
  {
    Threads.ExchangeDecides(s.ips, relocs, s.before, patched, s.after);
  }

  /** After a successful exchange no thread goes on inside the overwritten instructions: one
      interrupted at a kept instruction but the first leaves the handler at its copy, and one
      interrupted anywhere else stays there. */
  lemma NobodyResumesInThePatch(e: Episode, target: nat, insns: seq<Insn>, ips: seq<nat>, n: nat)
    requires EpisodeOk(e) && e.patched && |ips| + 1 == |insns| && e.relocs == RelocsFor(target, insns, ips)
    requires forall k :: 0 <= k < |insns| ==> 1 <= insns[k].len
    requires n < |e.suspension.after|
    requires
      var s := Threads.Run(AfterExchange(e), e.suspension.after[..n]);
      e.suspension.after[n].Resume? && Threads.Enabled(s, e.suspension.after[n])
    ensures
      var s := Threads.Run(AfterExchange(e), e.suspension.after[..n]);
      var (a, j) := (e.suspension.after[n], e.suspension.after[n].t);
      var (ip, ip') := (s.threads[j].ip, Threads.Next(s, a).threads[j].ip);
      && (forall i :: 1 <= i < |insns| && ip == target + Lens(insns[..i]) ==> ip' == ips[i - 1])
      && ((forall i :: 1 <= i < |insns| ==> ip != target + Lens(insns[..i])) ==> ip' == ip)
  {
    Threads.LeavesAt(AfterExchange(e), e.suspension.after, e.relocs, false, n);
    var s := Threads.Run(AfterExchange(e), e.suspension.after[..n]);
    KeptInsnMovesToItsCopy(target, insns, ips, s.threads[e.suspension.after[n].t].ip);
  }

  // What happened to the code: its content in front of the last exchange, the bytes that
  // were analyzed for it, and the exchanges made under suspension.
  datatype Trace = Trace(was: seq<byte>, bytes: seq<byte>, episodes: seq<Episode>)

  // Nothing but the analyzed bytes differs.
  ghost predicate SameOutside(was: seq<byte>, now: seq<byte>, at: int) {
    |was| == |now| && forall i :: 0 <= i < |was| && !(at <= i < at + DISASM_LEN) ==> now[i] == was[i]
  }

  lemma SameOutsideTwice(a: seq<byte>, b: seq<byte>, c: seq<byte>, at: int)
    requires SameOutside(a, b, at) && SameOutside(b, c, at)
    ensures SameOutside(a, c, at)
  {
  }

  // A jump to the thunk stands at the target, and nothing else has changed; a short one has
  // changed only the first instruction.
  ghost predicate EntryPatched(at: int, target: Usize, was: seq<byte>, now: seq<byte>, chain: Chain, len: nat) {
    && 0 <= at && at + DISASM_LEN <= |was| && |chain.jmp| == JMP_LEN
    && now == Patched(was, at, chain.jmp)
    && JumpTarget(target, now[at..at + 5]) == Some(chain.thunk.start)
    && forall i :: at + len <= i < |now| ==> now[i] == was[i]
  }

  lemma PatchLeadsToThunk(at: nat, target: Usize, was: seq<byte>, bytes: seq<byte>, chain: Chain, len: nat)
    requires at + DISASM_LEN <= |was| && LeadsToThunk(target, bytes, len, chain)
    requires was[at..at + CMPXCHG_LEN] == bytes[..CMPXCHG_LEN]
    ensures EntryPatched(at, target, was, Patched(was, at, chain.jmp), chain, len)
  {
    var now := Patched(was, at, chain.jmp);
    assert now[at..at + JMP_LEN] == chain.jmp;
    forall i | at + len <= i < |now| ensures now[i] == was[i] {
      if i < at + JMP_LEN {
        assert was[at..at + CMPXCHG_LEN][i - at] == bytes[..CMPXCHG_LEN][i - at];
      }
    }
  }

  // ----- the two ways

  datatype Installed = Hooked(chain: Chain, fast: bool) | NeedsSlow | TryAgain | Error(cause: Cause)

  ghost predicate BalancesLive(r: Installed, before: set<Range>, after: set<Range>) {
    if r.Hooked? then ChainIsNew(r.chain, before) && after == before + {r.chain.thunk, r.chain.trampoline} else after == before
  }

  // The code before, at and after an attempt. Exactly a hooking attempt exchanged the
  // entry; one to be repeated found other bytes.
  datatype Change = Change(old_: seq<byte>, was: seq<byte>, now: seq<byte>, patches: seq<nat>, patches': seq<nat>)

  ghost predicate BalancesCode(r: Installed, target: Usize, at: int, bytes: seq<byte>, len: nat, c: Change) {
    && c.patches' == c.patches + (if r.Hooked? then [target] else [])
    && (r.Hooked? || r.TryAgain? ==> 0 <= at && at + DISASM_LEN <= |c.was| && |bytes| == DISASM_LEN)
    && (r.Hooked? ==> c.was[at..at + CMPXCHG_LEN] == bytes[..CMPXCHG_LEN] && EntryPatched(at, target, c.was, c.now, r.chain, len))
    && (r.TryAgain? ==> c.was[at..at + CMPXCHG_LEN] != bytes[..CMPXCHG_LEN] && c.now == c.was)
    && (r.Error? || r.NeedsSlow? ==> c.now == c.old_)
  }

  // What a way leads to, in terms of memory and code alone: to an exchange, to the slow way
  // with the memory as it then is, or to a failure.
  datatype Way = Exchanges | GoesSlow(m: Memory) | Fails(cause: Cause)

  ghost function FastWay(planner: Planner, m: Memory, firstLen: nat): Way {
    match planner(m, firstLen)
    case CanBuild(_, _, _) => Exchanges
    case NoThunkIn(m') => if firstLen < 5 then GoesSlow(m') else Fails(NoThunkMemory)
    case CannotBuild(cause) => Fails(cause)
  }

  ghost function SlowWay(planner: Planner, m: Memory, a: Attempt): Way {
    match planner(m, 5)
    case CanBuild(_, _, relocs) =>
      if a.suspension.Some? && IsSuspended(a.suspension.value, relocs) then Exchanges
      else Fails(NotSuspended)
    case NoThunkIn(_) => Fails(NoThunkMemory)
    case CannotBuild(cause) => Fails(cause)
  }

  // Both ways.
  ghost function AttemptWay(planner: Planner, m: Memory, firstLen: nat, a: Attempt): Way {
    match FastWay(planner, m, firstLen)
    case GoesSlow(m') => SlowWay(planner, m', a)
    case way => way
  }

  function CauseOfWay(way: Way): Option<Cause> {
    if way.Fails? then Some(way.cause) else None
  }

  ghost predicate Follows(r: Installed, way: Way, m: Memory) {
    match way
    case Exchanges => r.Hooked? || r.TryAgain?
    case GoesSlow(m') => r.NeedsSlow? && m == m'
    case Fails(cause) => r == Error(cause)
  }

  // Others may write first; then the word is exchanged if it is still the analyzed one.
  method PatchEntry(code: Code, target: Usize, bytes: seq<byte>, chain: Chain, fast: bool, len: nat, written: Option<seq<byte>>,
                    ghost code0: seq<byte>)
      returns (patched: bool)
    requires code.Valid() && code.content == code0 && code.Holds(target) && LeadsToThunk(target, bytes, len, chain)
    requires written.Some? ==> |written.value| == DISASM_LEN
    modifies code, code.bytes
    ensures code.Valid()
    ensures BalancesCode(if patched then Hooked(chain, fast) else TryAgain, target, target - code.base, bytes, len,
                         Change(code0, Disturbed(code0, target - code.base, written),
                                code.content, old(code.patches), code.patches))
  {
    code.Disturb(target, written);
    ghost var was := code.content;
    var at := target - code.base;
    patched := code.Exchange(target, bytes, chain.jmp);
    if patched {
      PatchLeadsToThunk(at, target, was, bytes, chain, len);
    }
  }

  /** `install_fast`: the entry is exchanged if and only if the attempt hooks, and then
      nothing behind the first instruction changes; otherwise every block goes back. */
  method InstallFast(alloc: BoundedRangeAllocator, kernel: Kernel, code: Code, codec: Codec, target: Usize, bytes: seq<byte>,
                     insns: seq<Insn>, site: Site, a: Attempt, ghost code0: seq<byte>, ghost planner: Planner)
      returns (r: Installed)
    requires code.content == code0 && IsPlanner(planner, kernel.info, codec, target, bytes, insns, site)
    requires Consistent(alloc, kernel) && code.Valid() && CodecOk(codec) && SiteOk(insns, site) && AttemptOk(a)
    requires |bytes| == DISASM_LEN && target + DISASM_LEN <= ISIZE_MAX && code.Holds(target)
    modifies alloc, kernel, code, code.bytes
    ensures Consistent(alloc, kernel) && code.Valid() && BalancesLive(r, old(alloc.live), alloc.live)
    ensures BalancesCode(r, target, target - code.base, bytes, insns[0].len,
                         Change(code0, Disturbed(code0, target - code.base, a.beforeFast),
                                code.content, old(code.patches), code.patches))
    ensures r.Hooked? ==> r.fast && HoldsCopies(codec, target, insns, site, r.chain.trampoline, r.chain.relocs)
    ensures Follows(r, FastWay(planner, Memory(old(alloc.View()), old(kernel.State())), insns[0].len),
                    Memory(alloc.View(), kernel.State()))
  {
    var firstLen := insns[0].len;
    var built := Build(alloc, kernel, codec, target, bytes, firstLen, insns, site, planner);
    match built {
      case BuildError(cause) => return Error(cause);
      case NoThunk => return if firstLen < JMP_LEN then NeedsSlow else Error(NoThunkMemory);
      case Ready(chain) =>
        var patched := PatchEntry(code, target, bytes, chain, true, firstLen, a.beforeFast, code0);
        if !patched {
          ChainGivenBack(old(alloc.live), chain);
          ReclaimChain(alloc, kernel, chain);
          return TryAgain;
        }
        r := Hooked(chain, true);
    }
  }

  // The exchange while the other threads are suspended; when it fails the blocks go back.
  method PatchSuspended(alloc: BoundedRangeAllocator, kernel: Kernel, code: Code, target: Usize, bytes: seq<byte>, chain: Chain,
                        s: Suspension, written: Option<seq<byte>>, ghost code0: seq<byte>, ghost live: set<Range>)
      returns (patched: bool, ghost episodes: seq<Episode>)
    requires Consistent(alloc, kernel) && code.Valid() && ChainIsNew(chain, live) && alloc.live == live + {chain.thunk, chain.trampoline}
    requires code.content == code0 && code.Holds(target) && LeadsToThunk(target, bytes, JMP_LEN, chain)
    requires IsSuspended(s, chain.relocs) && (written.Some? ==> |written.value| == DISASM_LEN)
    modifies alloc, code, code.bytes
    ensures Consistent(alloc, kernel) && code.Valid() && alloc.live == if patched then live + {chain.thunk, chain.trampoline} else live
    ensures BalancesCode(if patched then Hooked(chain, false) else TryAgain, target, target - code.base, bytes, JMP_LEN,
                         Change(code0, Disturbed(code0, target - code.base, written), code.content, old(code.patches), code.patches))
    ensures episodes != [] && EpisodesOk(if patched then Hooked(chain, false) else TryAgain, episodes)
  {
    patched := PatchEntry(code, target, bytes, chain, false, JMP_LEN, written, code0);
    EpisodeFollowsTheExchange(s, chain.relocs, patched);
    episodes := [Episode(s, chain.relocs, patched)];
    if !patched {
      ChainGivenBack(live, chain);
      ReclaimChain(alloc, kernel, chain);
    }
  }

  /** `install_slow`: the same for the full jump while the other threads are suspended; the
      outcome of the exchange decides where they go on. */
  method InstallSlow(alloc: BoundedRangeAllocator, kernel: Kernel, code: Code, codec: Codec, target: Usize, bytes: seq<byte>,
                     insns: seq<Insn>, site: Site, a: Attempt, ghost code0: seq<byte>, ghost planner: Planner)
      returns (r: Installed, ghost episodes: seq<Episode>)
    requires code.content == code0 && IsPlanner(planner, kernel.info, codec, target, bytes, insns, site)
    requires Consistent(alloc, kernel) && code.Valid() && CodecOk(codec) && SiteOk(insns, site) && AttemptOk(a)
    requires |bytes| == DISASM_LEN && target + DISASM_LEN <= ISIZE_MAX && code.Holds(target)
    modifies alloc, kernel, code, code.bytes
    ensures Consistent(alloc, kernel) && code.Valid() && BalancesLive(r, old(alloc.live), alloc.live)
    ensures BalancesCode(r, target, target - code.base, bytes, JMP_LEN,
                         Change(code0, Disturbed(code0, target - code.base, a.beforeSlow),
                                code.content, old(code.patches), code.patches))
    ensures r.Hooked? ==> !r.fast && HoldsCopies(codec, target, insns, site, r.chain.trampoline, r.chain.relocs)
    ensures EpisodesOk(r, episodes) && (r.TryAgain? ==> episodes != [])
    ensures Follows(r, SlowWay(planner, Memory(old(alloc.View()), old(kernel.State())), a),
                    Memory(alloc.View(), kernel.State()))
    ensures !r.NeedsSlow?
  {
    episodes := [];
    // The full displacement range.
    var built := Build(alloc, kernel, codec, target, bytes, JMP_LEN, insns, site, planner);
    match built {
      case BuildError(cause) => return Error(cause), [];
      case NoThunk => return Error(NoThunkMemory), [];
      case Ready(chain) =>
        if a.suspension.None? || !IsSuspended(a.suspension.value, chain.relocs) {
          ChainGivenBack(old(alloc.live), chain);
          ReclaimChain(alloc, kernel, chain);
          return Error(NotSuspended), [];
        }
        var patched;
        patched, episodes := PatchSuspended(alloc, kernel, code, target, bytes, chain, a.suspension.value, a.beforeSlow, code0, old(alloc.live));
        r := if patched then Hooked(chain, false) else TryAgain;
    }
  }

  // Exactly a slow patch ends with a successful exchange under suspension, that of its own
  // relocations; any exchange before it has failed.
  ghost predicate EpisodesOk(r: Installed, episodes: seq<Episode>) {
    && (forall e :: e in episodes ==> EpisodeOk(e))
    && (forall i :: 0 <= i < |episodes| && episodes[i].patched ==> i == |episodes| - 1 && r.Hooked? && !r.fast)
    && (r.Hooked? && !r.fast ==> episodes != [] && episodes[|episodes| - 1].patched && episodes[|episodes| - 1].relocs == r.chain.relocs)
  }

  // ----- one attempt

  // The analyzed bytes are those that were exchanged, and the trampoline holds the copies
  // of the instructions the analysis keeps.
  ghost predicate EntryHooked(codec: Codec, at: int, target: Usize, t: Trace, now: seq<byte>, chain: Chain, fast: bool) {
    && |t.bytes| == DISASM_LEN && 0 <= at && at + DISASM_LEN <= |t.was|
    && t.was[at..at + CMPXCHG_LEN] == t.bytes[..CMPXCHG_LEN]
    && var insns := codec.decode(target, t.bytes);
    && insns != [] && EntryPatched(at, target, t.was, now, chain, if fast then insns[0].len else JMP_LEN)
    && exists site: Site :: IsKept(insns, site.count) && site.willBranch == insns[site.count - 1].branches
                      && HoldsCopies(codec, target, insns, site, chain.trampoline, chain.relocs)
  }

  // Nobody else writes to the site during the attempt.
  predicate Undisturbed(a: Attempt) {
    a.beforeFast.None? && a.beforeSlow.None?
  }

  ghost predicate NoneDisturbed(attempts: seq<Attempt>) {
    forall a :: a in attempts ==> Undisturbed(a)
  }

  // What attempts do to the code: the entry is exchanged if and only if the last one hooks,
  // and nobody but others changes anything else.
  ghost predicate TriedCode(r: Installed, codec: Codec, target: Usize, at: int, undisturbed: bool, t: Trace,
                            old_: seq<byte>, now: seq<byte>, patches: seq<nat>, patches': seq<nat>)
  {
    && !r.NeedsSlow?
    && patches' == patches + (if r.Hooked? then [target] else [])
    && (if r.Hooked? then EntryHooked(codec, at, target, t, now, r.chain, r.fast) else t.was == now)
    && SameOutside(old_, t.was, at)
    && (undisturbed ==> t.was == old_)
    && EpisodesOk(r, t.episodes)
  }

  lemma SiteIsAddressable(target: Usize, insns: seq<Insn>, site: Site)
    requires site.count <= |insns| && BoundsOk(target, insns, site)
    requires target + DISASM_LEN <= ISIZE_MAX && Decodes(target, insns)
    ensures 0 <= site.minRel && site.maxRel <= ISIZE_MAX
  {
    LensArePrefixes(insns, site.count);
  }

  lemma AcceptedSiteIsOk(target: Usize, insns: seq<Insn>)
    requires Decodes(target, insns) && target + DISASM_LEN <= ISIZE_MAX && AnalysisOf(target, insns).Accepted?
    ensures
      var site := AnalysisOf(target, insns).site;
      SiteOk(insns, site) && IsKept(insns, site.count) && site.willBranch == insns[site.count - 1].branches
  {
    AcceptedIsKept(target, insns);
    SiteIsAddressable(target, insns, AnalysisOf(target, insns).site);
  }

  /** Why an attempt fails, if it does: decided by what can be accessed, by the bytes read, by
      memory and kernel, by the encoder, and by the suspension - by nothing else. */
  ghost function CauseOf(m: Memory, info: SysInfo, codec: Codec, base: nat, code: seq<byte>, target: Usize, a: Attempt): Option<Cause>
    requires MemoryOk(m, info) && CodecOk(codec) && target + DISASM_LEN <= ISIZE_MAX
  {
    if !a.accessible || target < base || target + DISASM_LEN > base + |code| then Some(Inaccessible)
    else
      var bytes := code[target - base..target - base + DISASM_LEN];
      var insns := codec.decode(target, bytes);
      match AnalysisOf(target, insns)
      case Accepted(site) =>
        AcceptedSiteIsOk(target, insns);
        CauseOfWay(AttemptWay(PlannerFor(info, codec, target, bytes, insns, site), m, insns[0].len, a))
      case _ => Some(Unsuitable)
  }

  // The site can be decoded, and what is kept of it covers the jump, if need be with padding.
  ghost predicate Suitable(insns: seq<Insn>) {
    insns != [] && !insns[0].invalid && exists n: nat :: IsKept(insns, n) && ReachesJump(insns, n)
  }

  // The other threads can be suspended for the copies that get built with this memory.
  ghost predicate CanSuspend(m: Memory, info: SysInfo, codec: Codec, target: Usize, bytes: seq<byte>, insns: seq<Insn>, site: Site, a: Attempt)
    requires MemoryOk(m, info) && SiteOk(insns, site) && CodecOk(codec) && |bytes| == DISASM_LEN
  {
    var plan := PlanBuild(m, info, codec, target, bytes, 5, insns, site);
    plan.CanBuild? && a.suspension.Some? && IsSuspended(a.suspension.value, plan.relocs)
  }

  // Everything can be built near enough for a jump that changes the first instruction only;
  // or that is shorter than a jump and has no room for the thunk, but with the full range
  // everything can be built, and the other threads can be suspended.
  ghost predicate Hookable(m: Memory, info: SysInfo, codec: Codec, target: Usize, bytes: seq<byte>, insns: seq<Insn>, site: Site, a: Attempt)
    requires MemoryOk(m, info) && SiteOk(insns, site) && CodecOk(codec) && |bytes| == DISASM_LEN
  {
    AskThunkOk(m, info, target, bytes, insns[0].len);
    var (first, m') := (insns[0].len, AskThunk(m, info, target, bytes, insns[0].len).1);
    || Buildable(m, info, codec, target, bytes, first, insns, site)
    || (&& first < 5 && OnlyNoRoom(m, info, target, bytes, first)
        && Buildable(m', info, codec, target, bytes, 5, insns, site) && CanSuspend(m', info, codec, target, bytes, insns, site, a))
  }

  lemma PlannedExactlyWhen(m: Memory, info: SysInfo, codec: Codec, target: Usize, bytes: seq<byte>, len: nat, insns: seq<Insn>, site: Site,
                           planner: Planner)
    requires MemoryOk(m, info) && SiteOk(insns, site) && CodecOk(codec) && |bytes| == DISASM_LEN && len > 0 && target <= ISIZE_MAX
    requires IsPlanner(planner, info, codec, target, bytes, insns, site)
    ensures planner(m, len) == PlanBuild(m, info, codec, target, bytes, len, insns, site)
    ensures planner(m, len).CanBuild? <==> Buildable(m, info, codec, target, bytes, len, insns, site)
    ensures planner(m, len).NoThunkIn? <==> OnlyNoRoom(m, info, target, bytes, len)
    ensures planner(m, len).NoThunkIn? ==> planner(m, len).m == AskThunk(m, info, target, bytes, len).1
  {
    CanBuildExactlyWhen(m, info, codec, target, bytes, len, insns, site);
    assert planner(m, len) == PlanIn(info, codec, target, bytes, insns, site, m, len);
  }

  lemma WayExactlyWhen(m: Memory, info: SysInfo, codec: Codec, target: Usize, bytes: seq<byte>, insns: seq<Insn>, site: Site, a: Attempt,
                       planner: Planner)
    requires MemoryOk(m, info) && SiteOk(insns, site) && CodecOk(codec) && |bytes| == DISASM_LEN && target <= ISIZE_MAX
    requires IsPlanner(planner, info, codec, target, bytes, insns, site)
    ensures CauseOfWay(AttemptWay(planner, m, insns[0].len, a)).None? <==> Hookable(m, info, codec, target, bytes, insns, site, a)
  {
    AskThunkOk(m, info, target, bytes, insns[0].len);
    PlannedExactlyWhen(m, info, codec, target, bytes, insns[0].len, insns, site, planner);
    PlannedExactlyWhen(AskThunk(m, info, target, bytes, insns[0].len).1, info, codec, target, bytes, 5, insns, site, planner);
  }

  /** An attempt has no cause to fail exactly if the site can be accessed and is suitable,
      and a hook can be built and installed there. */
  lemma NoCauseExactlyWhen(m: Memory, info: SysInfo, codec: Codec, base: nat, code: seq<byte>, target: Usize, a: Attempt)
    requires MemoryOk(m, info) && CodecOk(codec) && target + DISASM_LEN <= ISIZE_MAX
    ensures CauseOf(m, info, codec, base, code, target, a).None? <==>
              && a.accessible && base <= target && target + DISASM_LEN <= base + |code|
              && var bytes := code[target - base..target - base + DISASM_LEN];
              && var insns := codec.decode(target, bytes);
              && Suitable(insns) && AnalysisOf(target, insns).Accepted?
              && SiteOk(insns, AnalysisOf(target, insns).site)
              && Hookable(m, info, codec, target, bytes, insns, AnalysisOf(target, insns).site, a)
  {
    if a.accessible && base <= target && target + DISASM_LEN <= base + |code| {
      var bytes := code[target - base..target - base + DISASM_LEN];
      var insns := codec.decode(target, bytes);
      AcceptedExactlyWhen(target, insns);
      if AnalysisOf(target, insns).Accepted? {
        var site := AnalysisOf(target, insns).site;
        AcceptedSiteIsOk(target, insns);
        WayExactlyWhen(m, info, codec, target, bytes, insns, site, a, PlannerFor(info, codec, target, bytes, insns, site));
      }
    }
  }

  lemma AcceptedExactlyWhen(target: Usize, insns: seq<Insn>)
    ensures AnalysisOf(target, insns).Accepted? <==> Suitable(insns)
  {
    if insns != [] && !insns[0].invalid {
      ScanStops(insns);
      ScanEndsKept(insns, ScanFrom(insns, AT_START));
    }
  }

  // The cause of an attempt at this target, as a value.
  type CauseFinder = (Memory, seq<byte>, Attempt) -> Option<Cause>

  ghost function CauseIn(info: SysInfo, codec: Codec, base: nat, target: Usize, m: Memory, code: seq<byte>, a: Attempt): Option<Cause> {
    if MemoryOk(m, info) && CodecOk(codec) && target + DISASM_LEN <= ISIZE_MAX then CauseOf(m, info, codec, base, code, target, a) else None
  }

  ghost predicate FindsCause(finder: CauseFinder, info: SysInfo, codec: Codec, base: nat, target: Usize) {
    forall m, code, a {:trigger CauseIn(info, codec, base, target, m, code, a)} ::
      finder(m, code, a) == CauseIn(info, codec, base, target, m, code, a)
  }

  lemma FinderFor(info: SysInfo, codec: Codec, base: nat, target: Usize) returns (finder: CauseFinder)
    ensures FindsCause(finder, info, codec, base, target)
  {
    finder := (m: Memory, code: seq<byte>, a: Attempt) => CauseIn(info, codec, base, target, m, code, a);
  }

  // What an attempt knows of the site: its bytes, their decoding and its analysis.
  ghost predicate SiteRead(codec: Codec, target: Usize, at: int, code: seq<byte>, bytes: seq<byte>, insns: seq<Insn>, site: Site) {
    && 0 <= at && at + DISASM_LEN <= |code| && bytes == code[at..at + DISASM_LEN]
    && insns == codec.decode(target, bytes)
    && SiteOk(insns, site) && IsKept(insns, site.count) && site.willBranch == insns[site.count - 1].branches
  }

  // An attempt fails exactly for its cause.
  ghost predicate DecidedBy(r: Installed, cause: Option<Cause>) {
    match cause
    case Some(c) => r == Error(c)
    case None => r.Hooked? || r.TryAgain?
  }

  // The code in front of the exchange of the fast or the slow way.
  function Met(code: seq<byte>, at: nat, a: Attempt, slow: bool): (r: seq<byte>)
    requires at + DISASM_LEN <= |code| && AttemptOk(a)
  {
    Disturbed(code, at, if slow then a.beforeSlow else a.beforeFast)
  }

  // What the last of the two ways did.
  ghost predicate WentAt(r: Installed, slow: bool, episodes: seq<Episode>, codec: Codec, target: Usize, at: int, bytes: seq<byte>,
                         insns: seq<Insn>, site: Site, cause: Option<Cause>, c: Change)
  {
    && insns != [] && BalancesCode(r, target, at, bytes, if slow then JMP_LEN else insns[0].len, c)
    && (r.Hooked? ==> r.fast == !slow && HoldsCopies(codec, target, insns, site, r.chain.trampoline, r.chain.relocs))
    && EpisodesOk(r, episodes) && !r.NeedsSlow?
    && DecidedBy(r, cause)
  }

  // The two ways, for a site that was read and analyzed.
  method InstallAt(alloc: BoundedRangeAllocator, kernel: Kernel, code: Code, codec: Codec, target: Usize, bytes: seq<byte>,
                   insns: seq<Insn>, site: Site, a: Attempt, ghost code0: seq<byte>, ghost planner: Planner, ghost cause: Option<Cause>)
      returns (r: Installed, ghost slow: bool, ghost episodes: seq<Episode>)
    requires Consistent(alloc, kernel) && code.Valid() && CodecOk(codec) && SiteOk(insns, site) && AttemptOk(a)
    requires |bytes| == DISASM_LEN && target + DISASM_LEN <= ISIZE_MAX && code.Holds(target) && code.content == code0
    requires IsPlanner(planner, kernel.info, codec, target, bytes, insns, site)
    requires cause == CauseOfWay(AttemptWay(planner, Memory(alloc.View(), kernel.State()), insns[0].len, a))
    modifies alloc, kernel, code, code.bytes
    ensures Consistent(alloc, kernel) && code.Valid() && BalancesLive(r, old(alloc.live), alloc.live)
    ensures WentAt(r, slow, episodes, codec, target, target - code.base, bytes, insns, site, cause,
                   Change(code0, Met(code0, target - code.base, a, slow),
                          code.content, old(code.patches), code.patches))
  {
    slow, episodes := false, [];
    r := InstallFast(alloc, kernel, code, codec, target, bytes, insns, site, a, code0, planner);
    if r.NeedsSlow? {
      slow := true;
      r, episodes := InstallSlow(alloc, kernel, code, codec, target, bytes, insns, site, a, code0, planner);
    }
  }

  // ----- the whole installation

  datatype InstallResult =
    | Existing(thunk: Range)     // the target is hooked already
    | Done(chain: Chain, fast: bool)
    | NotHooked(cause: Cause)
    | StillTrying                // every attempt so far has to be repeated

  datatype Lookup = Registered(thunk: Range) | Slot(index: nat)

  // Every registered thunk is a live block, and no two targets share one.
  ghost predicate ThunksAreLive(table: seq<ThunkFn>, live: set<Range>) {
    && (forall i :: 0 <= i < |table| ==> table[i].thunk in live)
    && (forall i, j :: 0 <= i < j < |table| ==> table[i].thunk != table[j].thunk)
  }

  lemma InsertKeepsThunksLive(table: seq<ThunkFn>, index: nat, t: ThunkFn, before: set<Range>, after: set<Range>)
    requires index <= |table| && ThunksAreLive(table, before) && before <= after
    requires t.thunk in after && t.thunk !in before
    ensures ThunksAreLive(Inserted(table, index, t), after)
  {
  }

  // No function's entry is patched twice, and the patched ones are the registered ones.
  ghost predicate EachPatchedOnce(patched: seq<nat>, table: map<nat, Range>) {
    && (forall i, j :: 0 <= i < j < |patched| ==> patched[i] != patched[j])
    && (forall a :: a in table <==> a in patched)
  }

  lemma LastIsPatchedToo(patches: seq<nat>, table: map<nat, Range>, target: nat, thunk: Range)
    requires EachPatchedOnce(patches, table) && target !in table
    ensures EachPatchedOnce(patches + [target], table[target := thunk])
  {
  }

  // Which attempt decided, and what it found: the memory, and the code it read.
  datatype Decision = Decision(k: nat, memory: Memory, read: seq<byte>)

  // The attempts before the deciding one were disturbed; the memory it found has the same
  // live blocks as at first, and is that of the beginning if it was the first.
  ghost predicate DecidesAt(d: Decision, attempts: seq<Attempt>, m: Memory, info: SysInfo, code: seq<byte>) {
    && d.k < |attempts| && MemoryOk(d.memory, info) && d.memory.heap.live == m.heap.live
    && (forall j :: 0 <= j < d.k ==> !Undisturbed(attempts[j]))
    && (d.k == 0 ==> d.memory == m && d.read == code)
  }

  // The deciding attempt did what its cause says, and only others can make it go on.
  ghost predicate Decides(d: Decision, r: Installed, attempts: seq<Attempt>, finder: CauseFinder, m: Memory, info: SysInfo, code: seq<byte>) {
    && DecidesAt(d, attempts, m, info, code)
    && DecidedBy(r, finder(d.memory, d.read, attempts[d.k]))
    && (r.TryAgain? ==> !Undisturbed(attempts[d.k]))
  }

  // A site that was read: what its analysis says of the cause.
  lemma SiteDecides(finder: CauseFinder, m: Memory, info: SysInfo, codec: Codec, base: nat, code: seq<byte>, target: Usize, a: Attempt,
                    bytes: seq<byte>, insns: seq<Insn>)
      returns (planner: Planner)
    requires FindsCause(finder, info, codec, base, target)
    requires MemoryOk(m, info) && CodecOk(codec) && target + DISASM_LEN <= ISIZE_MAX
    requires a.accessible && base <= target && target + DISASM_LEN <= base + |code|
    requires bytes == code[target - base..target - base + DISASM_LEN] && insns == codec.decode(target, bytes)
    ensures SiteVerdict(AnalysisOf(target, insns), finder(m, code, a), planner, m, info, codec, base, code, target, a, bytes, insns)
  {
    assert finder(m, code, a) == CauseIn(info, codec, base, target, m, code, a);
    planner := (m: Memory, len: nat) => CannotBuild(Unsuitable);
    if AnalysisOf(target, insns).Accepted? {
      AcceptedSiteIsOk(target, insns);
      planner := PlannerFor(info, codec, target, bytes, insns, AnalysisOf(target, insns).site);
    }
  }

  ghost predicate SiteVerdict(analysis: Analysis, cause: Option<Cause>, planner: Planner, m: Memory, info: SysInfo, codec: Codec, base: nat,
                              code: seq<byte>, target: Usize, a: Attempt, bytes: seq<byte>, insns: seq<Insn>)
  {
    match analysis
    case Accepted(site) =>
      && SiteRead(codec, target, target - base, code, bytes, insns, site)
      && IsPlanner(planner, info, codec, target, bytes, insns, site)
      && cause == CauseOfWay(AttemptWay(planner, m, insns[0].len, a))
    case _ => cause == Some(Unsuitable)
  }

  lemma OutOfReach(finder: CauseFinder, m: Memory, info: SysInfo, codec: Codec, base: nat, code: seq<byte>, target: Usize, a: Attempt)
    requires FindsCause(finder, info, codec, base, target)
    requires MemoryOk(m, info) && CodecOk(codec) && target + DISASM_LEN <= ISIZE_MAX
    requires !a.accessible || target < base || target + DISASM_LEN > base + |code|
    ensures finder(m, code, a) == Some(Inaccessible)
  {
    assert finder(m, code, a) == CauseIn(info, codec, base, target, m, code, a);
  }

  // The site's bytes, their decoding and its analysis.
  method ReadSite(code: Code, codec: Codec, target: Usize, a: Attempt, ghost finder: CauseFinder, ghost m: Memory, ghost info: SysInfo,
                  ghost code0: seq<byte>)
      returns (bytes: seq<byte>, insns: seq<Insn>, analysis: Analysis, ghost planner: Planner)
    requires FindsCause(finder, info, codec, code.base, target)
    requires MemoryOk(m, info) && CodecOk(codec) && target + DISASM_LEN <= ISIZE_MAX
    requires a.accessible && code.Valid() && code.Holds(target) && code0 == code.content
    ensures SiteVerdict(analysis, finder(m, code0, a), planner, m, info, codec, code.base, code0, target, a, bytes, insns)
  {
    var at := target - code.base;
    bytes := code.bytes[at..at + DISASM_LEN];
    assert bytes == code0[at..at + DISASM_LEN];
    insns := codec.decode(target, bytes);
    analysis := Analyze(target, insns);
    planner := SiteDecides(finder, m, info, codec, code.base, code0, target, a, bytes, insns);
  }

  // What an attempt leaves: everything but the blocks of a hooking one is as before, and the
  // result is what its cause says.
  ghost predicate Tried(r: Installed, codec: Codec, target: Usize, at: int, a: Attempt, cause: Option<Cause>, t: Trace,
                        old_: seq<byte>, now: seq<byte>, patches: seq<nat>, patches': seq<nat>)
  {
    && TriedCode(r, codec, target, at, Undisturbed(a), t, old_, now, patches, patches')
    && (Undisturbed(a) ==> !r.TryAgain?) && DecidedBy(r, cause)
  }

  // What the code was in front of the exchange, if it came to one.
  lemma AttemptTried(
    r: Installed, codec: Codec, target: Usize, at: nat, bytes: seq<byte>, insns: seq<Insn>, site: Site, a: Attempt, slow: bool,
    episodes: seq<Episode>, cause: Option<Cause>, old_: seq<byte>, now: seq<byte>, patches: seq<nat>, patches': seq<nat>)
      returns (t: Trace)
    requires SiteRead(codec, target, at, old_, bytes, insns, site) && AttemptOk(a)
    requires WentAt(r, slow, episodes, codec, target, at, bytes, insns, site, cause,
                    Change(old_, Met(old_, at, a, slow), now, patches, patches'))
    ensures Tried(r, codec, target, at, a, cause, t, old_, now, patches, patches')
  {
    var was := if r.Error? then old_ else Met(old_, at, a, slow);
    t := Trace(was, bytes, episodes);
    assert old_[at..at + CMPXCHG_LEN] == bytes[..CMPXCHG_LEN];
  }

  lemma NothingTried(cause: Cause, codec: Codec, target: Usize, at: int, a: Attempt, code: seq<byte>, patches: seq<nat>)
    ensures Tried(Error(cause), codec, target, at, a, Some(cause), Trace(code, [], []), code, code, patches, patches)
  {
  }

  /** One pass of the loop: analyze, try the fast way, and the slow one if the short jump
      reaches no memory. The entry is exchanged if and only if the pass hooks; a pass that
      hooks nothing leaves the live blocks alone, and fails exactly for its cause. */
  method TryOnce(alloc: BoundedRangeAllocator, kernel: Kernel, code: Code, codec: Codec, target: Usize, a: Attempt,
                 ghost finder: CauseFinder, ghost m: Memory, ghost code0: seq<byte>, ghost patches0: seq<nat>)
      returns (r: Installed, ghost t: Trace)
    requires FindsCause(finder, kernel.info, codec, code.base, target)
    requires m == Memory(alloc.View(), kernel.State()) && code0 == code.content && patches0 == code.patches
    requires Consistent(alloc, kernel) && code.Valid() && CodecOk(codec) && AttemptOk(a) && target + DISASM_LEN <= ISIZE_MAX
    modifies alloc, kernel, code, code.bytes
    ensures Consistent(alloc, kernel) && code.Valid() && BalancesLive(r, m.heap.live, alloc.live)
    ensures Tried(r, codec, target, target - code.base, a, finder(m, code0, a), t, code0, code.content, patches0, code.patches)
  {
    t := Trace(code0, [], []);
    if !a.accessible || !code.Holds(target) {
      OutOfReach(finder, m, kernel.info, codec, code.base, code0, target, a);
      NothingTried(Inaccessible, codec, target, target - code.base, a, code0, patches0);
      return Error(Inaccessible), t;
    }
    var bytes, insns, analysis;
    ghost var planner;
    bytes, insns, analysis, planner := ReadSite(code, codec, target, a, finder, m, kernel.info, code0);
    if !analysis.Accepted? {
      NothingTried(Unsuitable, codec, target, target - code.base, a, code0, patches0);
      return Error(Unsuitable), t;
    }
    ghost var cause, slow, episodes := finder(m, code0, a), false, [];
    r, slow, episodes := InstallAt(alloc, kernel, code, codec, target, bytes, insns, analysis.site, a, code0, planner, cause);
    t := AttemptTried(r, codec, target, target - code.base, bytes, insns, analysis.site, a, slow, episodes, cause,
                      code0, code.content, patches0, code.patches);
  }

  // What the first `i` attempts leave, all of which had to be repeated - or what is left
  // after them all, or after the one that decides.
  datatype Standing = Standing(r: Installed, t: Trace, d: Decision, m: Memory, code: seq<byte>, patches: seq<nat>)

  ghost predicate SoFar(i: nat, p: Standing, attempts: seq<Attempt>, finder: CauseFinder, start: Standing, info: SysInfo,
                        codec: Codec, target: Usize, at: int)
  {
    && i <= |attempts| && p.r.TryAgain? && p.m.heap.live == start.m.heap.live
    && TriedCode(TryAgain, codec, target, at, i == 0, p.t, start.code, p.code, start.patches, p.patches)
    && (forall j :: 0 <= j < i ==> !Undisturbed(attempts[j]))
    && (if i == 0 then p.m == start.m && p.code == start.code
        else Decides(p.d, p.r, attempts, finder, start.m, info, start.code))
  }

  ghost predicate Finished(p: Standing, attempts: seq<Attempt>, finder: CauseFinder, start: Standing, info: SysInfo,
                           codec: Codec, target: Usize, at: int)
  {
    && BalancesLive(p.r, start.m.heap.live, p.m.heap.live)
    && TriedCode(p.r, codec, target, at, NoneDisturbed(attempts), p.t, start.code, p.code, start.patches, p.patches)
    && (attempts == [] ==> p.r.TryAgain?)
    && (attempts != [] ==> Decides(p.d, p.r, attempts, finder, start.m, info, start.code))
  }

  ghost function Start(m: Memory, code: seq<byte>, patches: seq<nat>): Standing {
    Standing(TryAgain, Trace(code, [], []), Decision(0, m, code), m, code, patches)
  }

  // The loop: one attempt decides, the ones before it have to be repeated.
  method TryAll(alloc: BoundedRangeAllocator, kernel: Kernel, code: Code, codec: Codec, target: Usize, attempts: seq<Attempt>,
                ghost finder: CauseFinder, ghost start: Standing)
      returns (r: Installed, ghost p: Standing)
    requires FindsCause(finder, kernel.info, codec, code.base, target)
    requires Consistent(alloc, kernel) && code.Valid() && CodecOk(codec) && target + DISASM_LEN <= ISIZE_MAX
    requires IsNow(start, alloc, kernel, code) && SoFar(0, start, attempts, finder, start, kernel.info, codec, target, target - code.base)
    requires forall a :: a in attempts ==> AttemptOk(a)
    modifies alloc, kernel, code, code.bytes
    ensures Consistent(alloc, kernel) && code.Valid() && IsNow(p, alloc, kernel, code) && p.r == r
    ensures Finished(p, attempts, finder, start, kernel.info, codec, target, target - code.base)
  {
    r, p := TryAgain, start;
    for i := 0 to |attempts|
      invariant Consistent(alloc, kernel) && code.Valid() && IsNow(p, alloc, kernel, code) && p.r == r
      invariant SoFar(i, p, attempts, finder, start, kernel.info, codec, target, target - code.base)
    {
      r, p := TryNext(alloc, kernel, code, codec, target, attempts, i, finder, start, p);
      if !r.TryAgain? {
        return;
      }
    }
    AllRepeated(p, attempts, finder, start, kernel.info, codec, target, target - code.base);
  }

  lemma AllRepeated(p: Standing, attempts: seq<Attempt>, finder: CauseFinder, start: Standing, info: SysInfo,
                    codec: Codec, target: Usize, at: int)
    requires SoFar(|attempts|, p, attempts, finder, start, info, codec, target, at)
    ensures Finished(p, attempts, finder, start, info, codec, target, at)
  {
    if attempts != [] { assert attempts[0] in attempts; }
  }

  ghost predicate IsNow(p: Standing, alloc: BoundedRangeAllocator, kernel: Kernel, code: Code)
    reads alloc, kernel, code
  {
    p.m == Memory(alloc.View(), kernel.State()) && p.code == code.content && p.patches == code.patches
  }

  // One more attempt after `i` others.
  method TryNext(alloc: BoundedRangeAllocator, kernel: Kernel, code: Code, codec: Codec, target: Usize, attempts: seq<Attempt>,
                 i: nat, ghost finder: CauseFinder, ghost start: Standing, ghost p: Standing)
      returns (r: Installed, ghost p': Standing)
    requires i < |attempts| && AttemptOk(attempts[i])
    requires FindsCause(finder, kernel.info, codec, code.base, target)
    requires Consistent(alloc, kernel) && code.Valid() && CodecOk(codec) && target + DISASM_LEN <= ISIZE_MAX && IsNow(p, alloc, kernel, code)
    requires SoFar(i, p, attempts, finder, start, kernel.info, codec, target, target - code.base)
    modifies alloc, kernel, code, code.bytes
    ensures Consistent(alloc, kernel) && code.Valid() && IsNow(p', alloc, kernel, code) && p'.r == r
    ensures
      if r.TryAgain? then SoFar(i + 1, p', attempts, finder, start, kernel.info, codec, target, target - code.base)
      else Finished(p', attempts, finder, start, kernel.info, codec, target, target - code.base)
  {
    ghost var t;
    r, t := TryOnce(alloc, kernel, code, codec, target, attempts[i], finder, p.m, p.code, p.patches);
    p' := TriedAfter(r, t, Memory(alloc.View(), kernel.State()), code.content, code.patches,
                     i, p, attempts, finder, start, kernel.info, codec, target, target - code.base);
  }

  lemma TriedAfter(r: Installed, t: Trace, m: Memory, now: seq<byte>, patches: seq<nat>,
                   i: nat, p: Standing, attempts: seq<Attempt>, finder: CauseFinder, start: Standing, info: SysInfo,
                   codec: Codec, target: Usize, at: int)
      returns (p': Standing)
    requires i < |attempts| && MemoryOk(p.m, info) && SoFar(i, p, attempts, finder, start, info, codec, target, at)
    requires BalancesLive(r, p.m.heap.live, m.heap.live)
    requires Tried(r, codec, target, at, attempts[i], finder(p.m, p.code, attempts[i]), t, p.code, now, p.patches, patches)
    ensures p'.r == r && p'.m == m && p'.code == now && p'.patches == patches
    ensures
      if r.TryAgain? then SoFar(i + 1, p', attempts, finder, start, info, codec, target, at)
      else Finished(p', attempts, finder, start, info, codec, target, at)
  {
    p' := Standing(r, Trace(t.was, t.bytes, p.t.episodes + t.episodes), Decision(i, p.m, p.code), m, now, patches);
    SameOutsideTwice(start.code, p.t.was, t.was, at);
    assert attempts[i] in attempts;
    if i > 0 { assert attempts[0] in attempts; }
  }

  function ResultOf(r: Installed): InstallResult {
    match r
    case Hooked(chain, fast) => Done(chain, fast)
    case Error(cause) => NotHooked(cause)
    case _ => StillTrying
  }

  // A failure has its cause in what the deciding attempt found, and a success has none; if
  // nobody disturbs the first attempt, that is decided by what was there before it.
  ghost predicate HasItsCause(r: InstallResult, d: Decision, attempts: seq<Attempt>, m: Memory, info: SysInfo, codec: Codec,
                              base: nat, code: seq<byte>, target: Usize)
    requires MemoryOk(m, info) && CodecOk(codec) && target + DISASM_LEN <= ISIZE_MAX
  {
    && (r.NotHooked? || r.Done? ==>
          && DecidesAt(d, attempts, m, info, code)
          && CauseOf(d.memory, info, codec, base, d.read, target, attempts[d.k]) == if r.NotHooked? then Some(r.cause) else None)
    && (!r.Existing? && attempts != [] && Undisturbed(attempts[0]) ==>
          match CauseOf(m, info, codec, base, code, target, attempts[0])
          case Some(cause) => r == NotHooked(cause)
          case None => r.Done?)
  }

  lemma CauseDecides(p: Standing, attempts: seq<Attempt>, finder: CauseFinder, start: Standing, info: SysInfo, codec: Codec, base: nat, target: Usize)
    requires MemoryOk(start.m, info) && CodecOk(codec) && target + DISASM_LEN <= ISIZE_MAX
    requires FindsCause(finder, info, codec, base, target)
    requires Finished(p, attempts, finder, start, info, codec, target, target - base)
    ensures HasItsCause(ResultOf(p.r), p.d, attempts, start.m, info, codec, base, start.code, target)
    ensures NoneDisturbed(attempts) && p.r.TryAgain? ==> attempts == []
  {
    if attempts != [] {
      assert finder(p.d.memory, p.d.read, attempts[p.d.k]) == CauseIn(info, codec, base, target, p.d.memory, p.d.read, attempts[p.d.k]);
      assert attempts[p.d.k] in attempts;
    }
  }

  class ProcessContext {
    const alloc: BoundedRangeAllocator
    const kernel: Kernel
    const code: Code
    const codec: Codec
    var thunks: seq<ThunkFn>

    constructor (alloc: BoundedRangeAllocator, kernel: Kernel, code: Code, codec: Codec)
      requires Consistent(alloc, kernel) && CodecOk(codec) && code.Valid() && code.patches == []
      ensures Valid() && this.alloc == alloc && this.kernel == kernel && this.code == code && thunks == []
    {
      this.alloc, this.kernel, this.code, this.codec, thunks := alloc, kernel, code, codec, [];
    }

    ghost predicate Valid()
      reads this, alloc, kernel, code, code.bytes
    {
      && Consistent(alloc, kernel)
      && code.Valid()
      && CodecOk(codec)
      && Sorted(thunks)
      && ThunksAreLive(thunks, alloc.live)
      && EachPatchedOnce(code.patches, Table())
    }

    ghost function Table(): map<nat, Range>
      reads this
    {
      AsMap(thunks)
    }

    /** `get_thunk`. */
    method GetThunk(target: nat) returns (r: Lookup)
      requires Valid()
      ensures r.Registered? <==> target in Table()
      ensures r.Registered? ==> r.thunk == Table()[target]
      ensures r.Slot? ==> IsSlot(thunks, r.index, target)
    {
      var index := PartitionPoint(thunks, (t: ThunkFn) => t.addr < target);
      SearchFindsSlot(thunks, target, index);
      if index < |thunks| && thunks[index].addr == target {
        return Registered(thunks[index].thunk);
      }
      r := Slot(index);
    }

    /** `insert_thunk`: the block has been allocated and the target patched since. */
    method InsertThunk(index: nat, target: nat, thunk: Range, ghost before: set<Range>, ghost patches: seq<nat>)
      requires Consistent(alloc, kernel) && code.Valid() && CodecOk(codec) && Sorted(thunks) && IsSlot(thunks, index, target)
      requires ThunksAreLive(thunks, before) && before <= alloc.live
      requires thunk in alloc.live && thunk !in before
      requires EachPatchedOnce(patches, Table()) && code.patches == patches + [target]
      modifies this`thunks
      ensures Valid()
      ensures Table() == old(Table())[target := thunk]
    {
      InsertAddsEntry(thunks, index, ThunkFn(target, thunk));
      AsMapDescribes(thunks);
      LastIsPatchedToo(patches, Table(), target, thunk);
      InsertKeepsThunksLive(thunks, index, ThunkFn(target, thunk), before, alloc.live);
      thunks := thunks[..index] + [ThunkFn(target, thunk)] + thunks[index..];
    }

    /** `install`: a target that is hooked already keeps its thunk. Otherwise the slot found
        before the loop is still right after it, the entry is exchanged once, exactly two
        blocks become live and exactly one table entry is added - or, on failure, nothing
        is changed at all. It fails only for a cause outside, and an attempt is repeated only
        after others wrote to the site; if nobody does, it succeeds unless there is a cause.
        Threads that were suspended go on where the exchange sends them. */
    method Install(target: Usize, attempts: seq<Attempt>) returns (r: InstallResult, ghost t: Trace, ghost d: Decision)
      requires Valid() && target + DISASM_LEN <= ISIZE_MAX
      requires forall a :: a in attempts ==> AttemptOk(a)
      modifies this, alloc, kernel, code, code.bytes
      ensures Valid()
      ensures r.Existing? <==> target in old(Table())
      ensures r.Existing? ==> r.thunk == old(Table())[target]
      ensures r.Done? ==>
                && Table() == old(Table())[target := r.chain.thunk]
                && ChainIsNew(r.chain, old(alloc.live))
                && alloc.live == old(alloc.live) + {r.chain.thunk, r.chain.trampoline}
                && code.patches == old(code.patches) + [target]
                && EntryHooked(codec, target - code.base, target, t, code.content, r.chain, r.fast)
      ensures !r.Done? ==>
                && thunks == old(thunks) && alloc.live == old(alloc.live) && code.patches == old(code.patches)
                && t.was == code.content
      ensures HasItsCause(r, d, attempts, Memory(old(alloc.View()), old(kernel.State())), kernel.info, codec, code.base, old(code.content), target)
      ensures EpisodesOk(if r.Done? then Hooked(r.chain, r.fast) else TryAgain, t.episodes)
      ensures SameOutside(old(code.content), t.was, target - code.base)
      ensures NoneDisturbed(attempts) ==> t.was == old(code.content) && (r.StillTrying? ==> attempts == [])
    {
      ghost var start := Start(Memory(alloc.View(), kernel.State()), code.content, code.patches);
      var found := GetThunk(target);
      if found.Registered? {
        return Existing(found.thunk), start.t, start.d;
      }
      ghost var finder := FinderFor(kernel.info, codec, code.base, target);
      ghost var p;
      r, p := InstallAbsent(target, attempts, found.index, finder, start);
      CauseDecides(p, attempts, finder, start, kernel.info, codec, code.base, target);
      t, d := p.t, p.d;
    }

    // The loop, and the table entry if it hooks.
    method InstallAbsent(target: Usize, attempts: seq<Attempt>, index: nat, ghost finder: CauseFinder, ghost start: Standing)
        returns (r: InstallResult, ghost p: Standing)
      requires Valid() && target + DISASM_LEN <= ISIZE_MAX && IsSlot(thunks, index, target) && target !in Table()
      requires FindsCause(finder, kernel.info, codec, code.base, target)
      requires start == Start(Memory(alloc.View(), kernel.State()), code.content, code.patches)
      requires forall a :: a in attempts ==> AttemptOk(a)
      modifies this`thunks, alloc, kernel, code, code.bytes
      ensures Valid() && IsNow(p, alloc, kernel, code) && r == ResultOf(p.r)
      ensures Finished(p, attempts, finder, start, kernel.info, codec, target, target - code.base)
      ensures if p.r.Hooked? then Table() == old(Table())[target := p.r.chain.thunk] else thunks == old(thunks)
    {
      var tried;
      tried, p := TryAll(alloc, kernel, code, codec, target, attempts, finder, start);
      r := ResultOf(tried);
      if tried.Hooked? {
        InsertThunk(index, target, tried.chain.thunk, start.m.heap.live, start.patches);
      }
    }
  }
}
