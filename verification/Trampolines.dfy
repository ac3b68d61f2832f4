/** What a hook is built of: the thunk near the target and the copies of the instructions its
    jump displaces. Decoding and encoding instructions are parameters. */
module Trampolines {
  import opened Results
  import opened Rounding
  import opened Ranges
  import opened RangeHeap
  import opened RangeAllocator
  import opened MemoryRegions
  import opened OsMemory
  import opened ShortJump
  import opened HookSites
  import Threads = ThreadSuspension

  // ----- instructions and their copies

  // What encoding the kept instructions at an address yields: the length of the code, and
  // where the copy of each instruction but the first begins; or a failure.
  datatype Encoding = Encoded(len: nat, ips: seq<nat>) | EncodeFailed

  // Decoding at an address, and encoding for the target of these instructions at a buffer,
  // with a jump back unless they end in a branch.
  datatype Codec = Codec(
    decode: (nat, seq<byte>) -> seq<Insn>,
    encode: (nat, seq<Insn>, bool, nat) -> Encoding)

  ghost predicate Decodes(target: nat, insns: seq<Insn>) {
    && Lens(insns) <= DISASM_LEN
    && (forall i :: 0 <= i < |insns| ==> 1 <= insns[i].len)
    && (forall i :: 0 <= i < |insns| && insns[i].relAddr.Some? ==> insns[i].relAddr.value <= ISIZE_MAX)
  }

  predicate Encodes(insns: seq<Insn>, e: Encoding) {
    e.Encoded? && insns != [] ==> e.len > 0 && |e.ips| + 1 == |insns|
  }

  ghost predicate CodecOk(codec: Codec) {
    && (forall target: nat, bytes: seq<byte> {:trigger codec.decode(target, bytes)} ::
          |bytes| == DISASM_LEN ==> Decodes(target, codec.decode(target, bytes)))
    && (forall target: nat, insns: seq<Insn>, branches: bool, ip: nat {:trigger codec.encode(target, insns, branches, ip)} ::
          Encodes(insns, codec.encode(target, insns, branches, ip)))
  }

  // The relocations: from each kept instruction but the first to its copy.
  function RelocsFor(target: nat, insns: seq<Insn>, ips: seq<nat>): seq<Threads.IpReloc>
    requires |ips| + 1 == |insns|
  {
    seq(|ips|, i requires 0 <= i < |ips| => Threads.IpReloc(target + Lens(insns[..i + 1]), ips[i]))
  }

  lemma {:induction false} LensAscend(insns: seq<Insn>, i: nat, j: nat)
    requires i < j <= |insns| && forall k :: 0 <= k < |insns| ==> 1 <= insns[k].len
    ensures Lens(insns[..i]) < Lens(insns[..j])
    decreases j
  {
    LensStep(insns, j - 1);
    if i < j - 1 {
      LensAscend(insns, i, j - 1);
    }
  }

  lemma LensDistinct(insns: seq<Insn>, i: nat, j: nat)
    requires i <= |insns| && j <= |insns| && Lens(insns[..i]) == Lens(insns[..j])
    requires forall k :: 0 <= k < |insns| ==> 1 <= insns[k].len
    ensures i == j
  {
    if i < j {
      LensAscend(insns, i, j);
    } else if j < i {
      LensAscend(insns, j, i);
    }
  }

  /** A thread at a kept instruction but the first goes on at its copy; any other address
      stays as it is. */
  lemma KeptInsnMovesToItsCopy(target: nat, insns: seq<Insn>, ips: seq<nat>, ip: nat)
    requires |ips| + 1 == |insns| && forall k :: 0 <= k < |insns| ==> 1 <= insns[k].len
    ensures forall i :: 1 <= i < |insns| && ip == target + Lens(insns[..i]) ==>
              Threads.Relocated(RelocsFor(target, insns, ips), ip) == ips[i - 1]
    ensures (forall i :: 1 <= i < |insns| ==> ip != target + Lens(insns[..i])) ==>
              Threads.Relocated(RelocsFor(target, insns, ips), ip) == ip
  {
    var relocs := RelocsFor(target, insns, ips);
    Threads.PrefilterIsTransparent(relocs, ip);
    Threads.FindFromAt(relocs, ip);
    forall i | 1 <= i < |insns| && ip == target + Lens(insns[..i]) ensures Threads.Relocated(relocs, ip) == ips[i - 1] {
      assert relocs[i - 1] in relocs && relocs[i - 1].from == ip;
      var j :| Threads.MovesAway(relocs, ip, j) && relocs[j] == Threads.FindFrom(relocs, ip).value;
      LensDistinct(insns, j + 1, i);
    }
    if forall i :: 1 <= i < |insns| ==> ip != target + Lens(insns[..i]) {
      forall j | 0 <= j < |relocs| ensures relocs[j].from != ip {
        assert ip != target + Lens(insns[..j + 1]);
      }
    }
  }

  // ----- the thunk and the copies

  const THUNK_LAYOUT := Layout(16, 8)
  const BUFFER_LAYOUT := Layout(RELOC_BUF_LEN, 1)

  datatype Chain = Chain(thunk: Range, jmp: seq<byte>, trampoline: Range, relocs: seq<Threads.IpReloc>)

  // Why an installation cannot succeed.
  datatype Cause =
    | Inaccessible               // the site is outside the code or cannot be made writable
    | Unsuitable                 // it cannot be decoded or is too short
    | NoThunkMemory              // neither allocator nor kernel has memory for the thunk
    | NoBufferMemory             // nor for the copies
    | NotEncodable               // the copies cannot be encoded or are too long
    | NotSuspended               // the other threads cannot be suspended

  datatype Built = Ready(chain: Chain) | NoThunk | BuildError(cause: Cause)

  datatype Trampoline = At(bytes: Range, relocs: seq<Threads.IpReloc>) | RelocError(cause: Cause)

  // A site as the analysis of a decoding leaves it.
  ghost predicate SiteOk(insns: seq<Insn>, site: Site) {
    && insns != [] && 1 <= site.count <= |insns|
    && (forall i :: 0 <= i < |insns| ==> 1 <= insns[i].len)
    && 0 <= site.minRel && site.maxRel <= ISIZE_MAX
  }

  // ----- whether it can be built

  // The copies can be encoded at this address, and fit.
  predicate CopiesFit(codec: Codec, target: nat, insns: seq<Insn>, site: Site, at: nat)
    requires site.count <= |insns|
  {
    var e := codec.encode(target, insns[..site.count], site.willBranch, at);
    e.Encoded? && e.len <= 1024
  }

  datatype CopyPlan = CopyAt(buffer: Range, relocs: seq<Threads.IpReloc>) | CannotCopy(cause: Cause)

  ghost function CopyInto(codec: Codec, target: Usize, insns: seq<Insn>, site: Site, buffer: Range): CopyPlan
    requires SiteOk(insns, site) && CodecOk(codec) && buffer.start >= 0
  {
    if CopiesFit(codec, target, insns, site, buffer.start) then
      CopyAt(buffer, RelocsFor(target, insns[..site.count], codec.encode(target, insns[..site.count], site.willBranch, buffer.start).ips))
    else CannotCopy(NotEncodable)
  }

  ghost function PlanCopies(m: Memory, info: SysInfo, codec: Codec, target: Usize, insns: seq<Insn>, site: Site): CopyPlan
    requires MemoryOk(m, info) && SiteOk(insns, site) && CodecOk(codec)
  {
    AllocNearOsOk(m, info, BUFFER_LAYOUT, WindowCenter(target, site), WindowStart(site), WindowEnd(site));
    match AllocNearOs(m, info, BUFFER_LAYOUT, WindowCenter(target, site), WindowStart(site), WindowEnd(site)).0
    case Block(b) => CopyInto(codec, target, insns, site, b)
    case _ => CannotCopy(NoBufferMemory)
  }

  datatype BuildPlan = CanBuild(thunk: Range, buffer: Range, relocs: seq<Threads.IpReloc>) | NoThunkIn(m: Memory) | CannotBuild(cause: Cause)

  ghost function AskThunk(m: Memory, info: SysInfo, target: Usize, bytes: seq<byte>, len: nat): (AllocReply, Memory)
    requires MemoryOk(m, info) && |bytes| == DISASM_LEN && len > 0
  {
    ShortRangeFitsIsize(bytes, len);
    AllocNearOs(m, info, THUNK_LAYOUT, target, Included(MinOffset(bytes, len)), Included(MaxOffset(bytes, len)))
  }

  lemma AskThunkOk(m: Memory, info: SysInfo, target: Usize, bytes: seq<byte>, len: nat)
    requires MemoryOk(m, info) && |bytes| == DISASM_LEN && len > 0
    ensures MemoryOk(AskThunk(m, info, target, bytes, len).1, info)
  {
    ShortRangeFitsIsize(bytes, len);
    AllocNearOsOk(m, info, THUNK_LAYOUT, target, Included(MinOffset(bytes, len)), Included(MaxOffset(bytes, len)));
  }

  // With a thunk whose jump has the site's bytes behind the first `len`.
  ghost function PlanBuild(m: Memory, info: SysInfo, codec: Codec, target: Usize, bytes: seq<byte>, len: nat, insns: seq<Insn>, site: Site): BuildPlan
    requires MemoryOk(m, info) && SiteOk(insns, site) && CodecOk(codec) && |bytes| == DISASM_LEN && len > 0
  {
    AskThunkOk(m, info, target, bytes, len);
    match AskThunk(m, info, target, bytes, len)
    case (Block(thunk), m') =>
      (match PlanCopies(m', info, codec, target, insns, site)
       case CopyAt(buffer, relocs) => CanBuild(thunk, buffer, relocs)
       case CannotCopy(cause) => CannotBuild(cause))
    case (NoMemory, m') => NoThunkIn(m')
    case _ => CannotBuild(NoThunkMemory)
  }

  // The same for any memory and length, as a value.
  type Planner = (Memory, nat) -> BuildPlan

  ghost function PlanIn(info: SysInfo, codec: Codec, target: Usize, bytes: seq<byte>, insns: seq<Insn>, site: Site, m: Memory, len: nat): BuildPlan {
    if MemoryOk(m, info) && SiteOk(insns, site) && CodecOk(codec) && |bytes| == DISASM_LEN && len > 0 then
      PlanBuild(m, info, codec, target, bytes, len, insns, site)
    else CannotBuild(Unsuitable)
  }

  ghost function PlannerFor(info: SysInfo, codec: Codec, target: Usize, bytes: seq<byte>, insns: seq<Insn>, site: Site): Planner {
    (m: Memory, len: nat) => PlanIn(info, codec, target, bytes, insns, site, m, len)
  }

  ghost predicate IsPlanner(planner: Planner, info: SysInfo, codec: Codec, target: Usize, bytes: seq<byte>, insns: seq<Insn>, site: Site) {
    forall m, len: nat {:trigger PlanIn(info, codec, target, bytes, insns, site, m, len)} ::
      planner(m, len) == PlanIn(info, codec, target, bytes, insns, site, m, len)
  }

  // There is room in the allocator, or after the kernel has mapped memory.
  ghost predicate HasRoom(m: Memory, info: SysInfo, l: Layout, addr: Usize, start: Bound, end: Bound)
    requires MemoryOk(m, info) && LayoutOk(l) && l.size > 0
  {
    FitsBelowTop(m.heap, l, addr, start, end) || MappingHelps(m, info, l, addr, start, end)
  }

  lemma ThunkHasRoom(m: Memory, info: SysInfo, target: Usize, bytes: seq<byte>, len: nat)
    requires MemoryOk(m, info) && |bytes| == DISASM_LEN && len > 0 && target <= ISIZE_MAX
    requires ISIZE_MIN <= MinOffset(bytes, len) <= ISIZE_MAX && ISIZE_MIN <= MaxOffset(bytes, len) <= ISIZE_MAX
    ensures AskThunk(m, info, target, bytes, len).0.Block? <==>
            HasRoom(m, info, THUNK_LAYOUT, target, Included(MinOffset(bytes, len)), Included(MaxOffset(bytes, len)))
    ensures AskThunk(m, info, target, bytes, len).0.NoMemory? <==> OnlyNoRoom(m, info, target, bytes, len)
  {
    var start, end := Included(MinOffset(bytes, len)), Included(MaxOffset(bytes, len));
    LeRoundTrips(0, FilledBytes(MIN_BYTES, bytes, len));
    RoundUpIsLeast(SaturatingAddSigned(target, MinOffset(bytes, len)), THUNK_LAYOUT.align);
    AskDoesNotPanic(m, THUNK_LAYOUT, target, start, end);
    BlockExactlyWhen(m, info, THUNK_LAYOUT, target, start, end);
  }

  lemma AskDoesNotPanic(m: Memory, l: Layout, addr: Usize, start: Bound, end: Bound)
    requires HeapOk(m.heap) && LayoutOk(l) && l.size > 0
    requires LowestOffset(start).Some? ==> RoundUp(SaturatingAddSigned(addr, LowestOffset(start).value), l.align) <= USIZE_MAX
    ensures !AskHeap(m.heap, m.kernel, l, addr, start, end).0.Panic?
  {
    AllocNearIsExact(m.heap, l, addr, start, end);
  }

  lemma BufferHasRoom(m: Memory, info: SysInfo, target: Usize, insns: seq<Insn>, site: Site)
    requires MemoryOk(m, info) && SiteOk(insns, site)
    ensures AllocNearOs(m, info, BUFFER_LAYOUT, WindowCenter(target, site), WindowStart(site), WindowEnd(site)).0.Block? <==>
            HasRoom(m, info, BUFFER_LAYOUT, WindowCenter(target, site), WindowStart(site), WindowEnd(site))
  {
    AskDoesNotPanic(m, BUFFER_LAYOUT, WindowCenter(target, site), WindowStart(site), WindowEnd(site));
    BlockExactlyWhen(m, info, BUFFER_LAYOUT, WindowCenter(target, site), WindowStart(site), WindowEnd(site));
  }

  // The kernel did not fail; there is just no room for the thunk.
  ghost predicate OnlyNoRoom(m: Memory, info: SysInfo, target: Usize, bytes: seq<byte>, len: nat)
    requires MemoryOk(m, info) && |bytes| == DISASM_LEN && len > 0
  {
    var start, end := Included(MinOffset(bytes, len)), Included(MaxOffset(bytes, len));
    !HasRoom(m, info, THUNK_LAYOUT, target, start, end) && !NearReply(m.kernel, info, THUNK_LAYOUT, target, start, end).0.MapFailed?
  }

  // There is room for a thunk within reach of the jump and then for a buffer in the window,
  // and the copies can be encoded there in 1024 bytes.
  ghost predicate Buildable(m: Memory, info: SysInfo, codec: Codec, target: Usize, bytes: seq<byte>, len: nat, insns: seq<Insn>, site: Site)
    requires MemoryOk(m, info) && SiteOk(insns, site) && CodecOk(codec) && |bytes| == DISASM_LEN && len > 0
  {
    AskThunkOk(m, info, target, bytes, len);
    var m' := AskThunk(m, info, target, bytes, len).1;
    var near := AllocNearOs(m', info, BUFFER_LAYOUT, WindowCenter(target, site), WindowStart(site), WindowEnd(site)).0;
    && HasRoom(m, info, THUNK_LAYOUT, target, Included(MinOffset(bytes, len)), Included(MaxOffset(bytes, len)))
    && HasRoom(m', info, BUFFER_LAYOUT, WindowCenter(target, site), WindowStart(site), WindowEnd(site))
    && near.Block? && near.block.start >= 0 && CopiesFit(codec, target, insns, site, near.block.start)
  }

  /** Thunk and trampoline can be built exactly if there is room for both and the copies fit;
      and the thunk is what is missing exactly if there is no room for it. */
  lemma CanBuildExactlyWhen(m: Memory, info: SysInfo, codec: Codec, target: Usize, bytes: seq<byte>, len: nat, insns: seq<Insn>, site: Site)
    requires MemoryOk(m, info) && SiteOk(insns, site) && CodecOk(codec) && |bytes| == DISASM_LEN && len > 0 && target <= ISIZE_MAX
    ensures
      var plan := PlanBuild(m, info, codec, target, bytes, len, insns, site);
      && (plan.CanBuild? <==> Buildable(m, info, codec, target, bytes, len, insns, site))
      && (plan.NoThunkIn? <==> OnlyNoRoom(m, info, target, bytes, len))
      && (plan.NoThunkIn? ==> plan.m == AskThunk(m, info, target, bytes, len).1)
  {
    AskThunkOk(m, info, target, bytes, len);
    ShortRangeFitsIsize(bytes, len);
    ThunkHasRoom(m, info, target, bytes, len);
    var m' := AskThunk(m, info, target, bytes, len).1;
    AllocNearOsOk(m', info, BUFFER_LAYOUT, WindowCenter(target, site), WindowStart(site), WindowEnd(site));
    BufferHasRoom(m', info, target, insns, site);
  }

  // ----- building it

  // The trampoline holds just the encoded copies, and the relocations lead to them.
  ghost predicate HoldsCopies(codec: Codec, target: nat, insns: seq<Insn>, site: Site, trampoline: Range, relocs: seq<Threads.IpReloc>) {
    && 1 <= site.count <= |insns| && 0 <= trampoline.start
    && var e := codec.encode(target, insns[..site.count], site.willBranch, trampoline.start);
    && e.Encoded? && trampoline.end == trampoline.start + e.len
    && |e.ips| + 1 == site.count && relocs == RelocsFor(target, insns[..site.count], e.ips)
  }

  // Giving a new block back leaves the live blocks as they were.
  lemma GivenBack(live: set<Range>, b: Range)
    requires b !in live
    ensures live + {b} - {b} == live
  {
  }

  method GiveBack(alloc: BoundedRangeAllocator, kernel: Kernel, block: Range)
    requires Consistent(alloc, kernel) && block in alloc.live && block.end <= ISIZE_MAX
    modifies alloc
    ensures Consistent(alloc, kernel) && alloc.live == old(alloc.live) - {block}
  {
    LiveBlockIsKnown(alloc.View(), block);
    alloc.Reclaim(block);
  }

  lemma LiveBlockIsKnown(h: Heap, b: Range)
    requires HeapOk(h) && b in h.live
    ensures 1 <= b.start < b.end && h.adopted + Bytes(b) == h.adopted
  {
  }

  // `split_at_mut` on a block, keeping the first `len` bytes and giving the rest back.
  method KeepFront(alloc: BoundedRangeAllocator, kernel: Kernel, block: Range, len: nat)
    requires Consistent(alloc, kernel) && block in alloc.live && block.end <= ISIZE_MAX
    requires 0 < len <= block.end - block.start
    modifies alloc
    ensures Consistent(alloc, kernel)
    ensures alloc.live == old(alloc.live) - {block} + {Range(block.start, block.start + len)}
    ensures len < block.end - block.start ==> Range(block.start, block.start + len) !in old(alloc.live)
  {
    var front := Range(block.start, block.start + len);
    if len < block.end - block.start {
      var rest := Range(block.start + len, block.end);
      CutKeepsHeapOk(alloc.View(), block, block.start + len);
      PartsAreNotLive(alloc.View(), block, block.start + len);
      ghost var before := alloc.live;
      alloc.SplitBlock(block, block.start + len);
      GiveBack(alloc, kernel, rest);
      assert alloc.live == before - {block} + {front};
    } else {
      assert front == block;
      assert alloc.live == alloc.live - {block} + {front};
    }
  }

  lemma PartsAreNotLive(h: Heap, b: Range, at: int)
    requires HeapOk(h) && b in h.live && b.start < at < b.end
    ensures Range(b.start, at) !in h.live && Range(at, b.end) !in h.live
  {
  }

  /** `relocate`: over-allocate, encode, keep the bytes used and give the rest back. */
  method Relocate(alloc: BoundedRangeAllocator, kernel: Kernel, codec: Codec, target: Usize, insns: seq<Insn>, site: Site)
      returns (r: Trampoline)
    requires Consistent(alloc, kernel) && CodecOk(codec) && SiteOk(insns, site)
    modifies alloc, kernel
    ensures Consistent(alloc, kernel)
    ensures
      match PlanCopies(Memory(old(alloc.View()), old(kernel.State())), kernel.info, codec, target, insns, site)
      case CopyAt(buffer, relocs) => r.At? && r.bytes.start == buffer.start && r.relocs == relocs
      case CannotCopy(cause) => r == RelocError(cause)
    ensures r.RelocError? ==> alloc.live == old(alloc.live)
    ensures r.At? ==>
              && HoldsCopies(codec, target, insns, site, r.bytes, r.relocs) && r.bytes.end <= ISIZE_MAX
              && r.bytes !in old(alloc.live) && alloc.live == old(alloc.live) + {r.bytes}
              && OffsetAllowed(WindowStart(site), WindowEnd(site), r.bytes.start - WindowCenter(target, site))
  {
    var reply, mapped := OsAllocNear(alloc, kernel, BUFFER_LAYOUT, WindowCenter(target, site), WindowStart(site), WindowEnd(site));
    if !reply.Block? {
      return RelocError(NoBufferMemory);
    }
    r := FillBuffer(alloc, kernel, codec, target, insns, site, reply.block, old(alloc.live));
  }

  // The copies are encoded into the new buffer; what they leave over goes back.
  method FillBuffer(alloc: BoundedRangeAllocator, kernel: Kernel, codec: Codec, target: Usize, insns: seq<Insn>, site: Site,
                    buffer: Range, ghost live: set<Range>)
      returns (r: Trampoline)
    requires Consistent(alloc, kernel) && CodecOk(codec) && SiteOk(insns, site)
    requires buffer !in live && alloc.live == live + {buffer}
    requires 0 <= buffer.start && buffer.end == buffer.start + RELOC_BUF_LEN && buffer.end <= ISIZE_MAX
    modifies alloc
    ensures Consistent(alloc, kernel)
    ensures if CopiesFit(codec, target, insns, site, buffer.start) then r.At? else r == RelocError(NotEncodable)
    ensures r.RelocError? ==> alloc.live == live
    ensures r.At? ==>
              && HoldsCopies(codec, target, insns, site, r.bytes, r.relocs) && r.bytes.start == buffer.start && r.bytes.end <= ISIZE_MAX
              && r.bytes !in live && alloc.live == live + {r.bytes}
  {
    GivenBack(live, buffer);
    var kept := insns[..site.count];
    var encoding := codec.encode(target, kept, site.willBranch, buffer.start);
    if encoding.EncodeFailed? || encoding.len > RELOC_BUF_LEN {
      GiveBack(alloc, kernel, buffer);
      return RelocError(NotEncodable);
    }
    KeepFront(alloc, kernel, buffer, encoding.len);
    r := At(Range(buffer.start, buffer.start + encoding.len), RelocsFor(target, kept, encoding.ips));
  }

  /** `JmpChain::build` for the range of a first instruction of `len` bytes; with 5 it is
      the full range. The jump it encodes leads to the thunk. */
  method Build(alloc: BoundedRangeAllocator, kernel: Kernel, codec: Codec, target: Usize, bytes: seq<byte>, len: nat,
               insns: seq<Insn>, site: Site, ghost planner: Planner)
      returns (r: Built)
    requires Consistent(alloc, kernel) && CodecOk(codec) && SiteOk(insns, site)
    requires IsPlanner(planner, kernel.info, codec, target, bytes, insns, site)
    requires |bytes| == DISASM_LEN && len > 0 && target + DISASM_LEN <= ISIZE_MAX
    modifies alloc, kernel
    ensures Consistent(alloc, kernel)
    ensures
      match planner(Memory(old(alloc.View()), old(kernel.State())), len)
      case CanBuild(thunk, buffer, relocs) => r.Ready? && r.chain.thunk == thunk && r.chain.trampoline.start == buffer.start && r.chain.relocs == relocs
      case NoThunkIn(m) => r.NoThunk? && m == Memory(alloc.View(), kernel.State())
      case CannotBuild(cause) => r == BuildError(cause)
    ensures !r.Ready? ==> alloc.live == old(alloc.live)
    ensures r.Ready? ==>
              && ChainIsNew(r.chain, old(alloc.live)) && alloc.live == old(alloc.live) + {r.chain.thunk, r.chain.trampoline}
              && HoldsCopies(codec, target, insns, site, r.chain.trampoline, r.chain.relocs)
              && LeadsToThunk(target, bytes, len, r.chain)
  {
    ghost var m := Memory(alloc.View(), kernel.State());
    assert planner(m, len) == PlanIn(kernel.info, codec, target, bytes, insns, site, m, len);
    ShortRangeFitsIsize(bytes, len);
    var start, end := Included(MinOffset(bytes, len)), Included(MaxOffset(bytes, len));
    var reply, mapped := OsAllocNear(alloc, kernel, THUNK_LAYOUT, target, start, end);
    match reply {
      case OsFailure => return BuildError(NoThunkMemory);
      case Panic => return BuildError(NoThunkMemory);
      case NoMemory => return NoThunk;
      case Block(thunk) =>
        GivenBack(old(alloc.live), thunk);
        var relocated := Relocate(alloc, kernel, codec, target, insns, site);
        if relocated.RelocError? {
          GiveBack(alloc, kernel, thunk);
          return BuildError(relocated.cause);
        }
        var jmp := EncodeFor(target, bytes, len, thunk);
        r := Ready(Chain(thunk, jmp, relocated.bytes, relocated.relocs));
    }
  }

  method EncodeFor(target: Usize, bytes: seq<byte>, len: nat, thunk: Range) returns (jmp: seq<byte>)
    requires |bytes| == DISASM_LEN && len > 0 && target + DISASM_LEN <= ISIZE_MAX && 0 <= thunk.start <= ISIZE_MAX
    requires MinOffset(bytes, len) <= thunk.start - target <= MaxOffset(bytes, len)
    ensures forall trampoline, relocs :: LeadsToThunk(target, bytes, len, Chain(thunk, jmp, trampoline, relocs))
  {
    ShortJumpPatchesOneInstruction(target, bytes, len, thunk.start);
    jmp := Encode(target, thunk.start).value;
    assert forall i :: 0 <= i < JMP_LEN ==> PatchedWord(bytes, jmp)[i] == jmp[i];
  }

  // The chain's jump, at the target, goes to its thunk; its bytes behind the first `len`
  // are the site's own.
  ghost predicate LeadsToThunk(target: Usize, bytes: seq<byte>, len: nat, c: Chain) {
    && |c.jmp| == JMP_LEN && |bytes| == DISASM_LEN && JumpTarget(target, c.jmp) == Some(c.thunk.start)
    && forall i :: len <= i < JMP_LEN ==> c.jmp[i] == bytes[i]
  }

  lemma ShortRangeFitsIsize(bytes: seq<byte>, len: nat)
    requires |bytes| == DISASM_LEN && len > 0
    ensures ISIZE_MIN <= MinOffset(bytes, len) <= ISIZE_MAX && ISIZE_MIN <= MaxOffset(bytes, len) <= ISIZE_MAX
  {
  }

  // Two blocks, neither of them live before.
  ghost predicate ChainIsNew(c: Chain, live: set<Range>) {
    && c.thunk !in live && c.trampoline !in live && c.thunk != c.trampoline
    && c.thunk.end == c.thunk.start + THUNK_LAYOUT.size && c.thunk.end <= ISIZE_MAX && c.trampoline.end <= ISIZE_MAX
  }

  method ReclaimChain(alloc: BoundedRangeAllocator, kernel: Kernel, chain: Chain)
    requires Consistent(alloc, kernel) && chain.thunk in alloc.live && chain.trampoline in alloc.live
    requires chain.thunk != chain.trampoline && chain.thunk.end <= ISIZE_MAX && chain.trampoline.end <= ISIZE_MAX
    modifies alloc
    ensures Consistent(alloc, kernel) && alloc.live == old(alloc.live) - {chain.trampoline} - {chain.thunk}
  {
    GiveBack(alloc, kernel, chain.trampoline);
    GiveBack(alloc, kernel, chain.thunk);
  }

  lemma ChainGivenBack(live: set<Range>, c: Chain)
    requires c.thunk !in live && c.trampoline !in live
    ensures live + {c.thunk, c.trampoline} - {c.trampoline} - {c.thunk} == live
  {
  }
}
