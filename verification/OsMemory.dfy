/** Memory near an address: the allocator first, and if it refuses, memory newly mapped by
    the kernel. The memory maps and the kernel's answers are parameters. */
module OsMemory {
  import opened Results
  import opened Rounding
  import opened Ranges
  import opened RangeHeap
  import opened RangeAllocator
  import opened RegionAllocation
  import opened MemoryRegions

  // ----- memory from the kernel

  datatype OsReply = Mapped(region: Range) | NothingFree | MapFailed

  // Memory handed out before shows up as mapped.
  predicate Reports(map_: seq<RegionInfo>, handedOut: seq<Range>) {
    forall i :: 0 <= i < |handedOut| ==>
      exists j :: 0 <= j < |map_| && map_[j].start <= handedOut[i].start && handedOut[i].end <= map_[j].end
  }

  function Reporting(passes: seq<Pass>, handedOut: seq<Range>): (r: seq<Pass>)
    ensures forall pass :: pass in r ==> pass in passes && Reports(pass.map_, handedOut)
  {
    if passes == [] then []
    else (if Reports(passes[0].map_, handedOut) then [passes[0]] else []) + Reporting(passes[1..], handedOut)
  }

  // The kernel's side of mapping memory. Each view is what one search meets: the maps it
  // reads and the answers to its attempts. Maps that hide memory handed out before are
  // passed over, as the kernel gives no such map.
  datatype KernelState = KernelState(views: seq<seq<Pass>>, handedOut: seq<Range>)

  ghost function BytesOf(handedOut: seq<Range>): set<int> {
    set r, x | r in handedOut && x in Bytes(r) :: x
  }

  ghost predicate KernelOk(k: KernelState, info: SysInfo) {
    && SysInfoOk(info) && info.granularity >= MIN_RANGE_LEN
    && forall view :: view in k.views ==> PassesOk(view)
  }

  // `Region::alloc_between`, answered with memory the process did not have before.
  ghost function MapReply(k: KernelState, q: Request, info: SysInfo): (OsReply, KernelState)
    requires SysInfoOk(info) && info.minAddress <= q.minAddr
  {
    if k.views == [] then (NothingFree, k)
    else
      var rest := k.(views := k.views[1..]);
      match ReplyBetween(q, info, Reporting(k.views[0], k.handedOut))
      case Got(region) => (Mapped(region), rest.(handedOut := k.handedOut + [region]))
      case OsError => (MapFailed, rest)
      case _ => (NothingFree, rest)
  }

  class Kernel {
    const info: SysInfo
    var views: seq<seq<Pass>>
    var handedOut: seq<Range>

    ghost function State(): KernelState
      reads this
    {
      KernelState(views, handedOut)
    }

    ghost predicate Valid()
      reads this
    {
      KernelOk(State(), info)
    }

    ghost function Handed(): set<int>
      reads this
    {
      BytesOf(handedOut)
    }

    method Map(q: Request) returns (reply: OsReply)
      requires Valid() && info.minAddress <= q.minAddr && q.size > 0
      requires q.minAddr <= q.maxAddr ==> q.maxAddr + q.size <= info.maxAddress
      modifies this
      ensures Valid() && old(Handed()) <= Handed()
      ensures (reply, State()) == MapReply(old(State()), q, info)
      ensures reply.Mapped? ==>
                && IsMapped(reply.region, q, info)
                && Bytes(reply.region) !! old(Handed()) && Bytes(reply.region) <= Handed()
    {
      if views == [] {
        return NothingFree;
      }
      var passes := Reporting(views[0], handedOut);
      assert views[0] in views;
      views := views[1..];
      var answer := AllocBetween(q, info, passes);
      match answer {
        case NoRoom => return NothingFree;
        case OutOfPasses => return NothingFree;
        case OsError => return MapFailed;
        case Got(region) =>
          ServingRegionIsLarge(region, q, info);
          UnmappedIsNotHanded(region, passes, handedOut);
          handedOut := handedOut + [region];
          return Mapped(region);
      }
    }
  }

  // Whole pages that serve the request.
  ghost predicate IsMapped(region: Range, q: Request, info: SysInfo)
    requires info.granularity > 0
  {
    1 <= region.start && region.start + MIN_RANGE_LEN <= region.end <= info.maxAddress && Serves(region, q, info)
  }

  lemma ServingRegionIsLarge(region: Range, q: Request, info: SysInfo)
    requires SysInfoOk(info) && info.granularity >= MIN_RANGE_LEN
    requires info.minAddress <= q.minAddr && q.size > 0
    requires LowestSpot(q, info) <= region.start && region.end <= info.maxAddress && Serves(region, q, info)
    ensures IsMapped(region, q, info)
  {
    LowestSpotIsInRange(q, info);
    var p :| HoldsAt(region, q, p);
    AlignedApart(region.start, region.end, info.granularity);
  }

  lemma AlignedApart(a: int, b: int, align: int)
    requires align > 0 && Aligned(a, align) && Aligned(b, align) && a < b
    ensures a + align <= b
  {
    Distribute(a / align, align);
    if a / align < b / align {
      ScaleOrder(a / align + 1, b / align, align);
    } else {
      ScaleOrder(b / align, a / align, align);
    }
  }

  lemma UnmappedIsNotHanded(region: Range, passes: seq<Pass>, handedOut: seq<Range>)
    requires exists pass :: pass in passes && Unmapped(region, pass.map_)
    requires forall pass :: pass in passes ==> Reports(pass.map_, handedOut)
    ensures forall r, x :: r in handedOut && x in Bytes(r) ==> x !in Bytes(region)
  {
    var pass :| pass in passes && Unmapped(region, pass.map_);
    forall r, x | r in handedOut && x in Bytes(r) ensures x !in Bytes(region) {
      var i :| 0 <= i < |handedOut| && handedOut[i] == r;
      var j :| 0 <= j < |pass.map_| && pass.map_[j].start <= r.start && r.end <= pass.map_[j].end;
      assert pass.map_[j] in pass.map_;
    }
  }

  ghost predicate Consistent(alloc: BoundedRangeAllocator, kernel: Kernel)
    reads alloc, kernel
  {
    MemoryOk(Memory(alloc.View(), kernel.State()), kernel.info)
  }

  // The allocator's heap and the kernel's side.
  datatype Memory = Memory(heap: Heap, kernel: KernelState)

  ghost predicate MemoryOk(m: Memory, info: SysInfo) {
    HeapOk(m.heap) && KernelOk(m.kernel, info) && m.heap.adopted <= BytesOf(m.kernel.handedOut)
  }

  datatype AllocReply = Block(block: Range) | NoMemory | OsFailure | Panic

  // A block of the layout at an allowed offset, new among the live ones.
  ghost predicate IsNewBlock(b: Range, l: Layout, live: set<Range>, addr: int, start: Bound, end: Bound) {
    && b !in live
    && 1 <= b.start && b.end == b.start + l.size && b.end <= ISIZE_MAX
    && l.align > 0 && Aligned(b.start, l.align)
    && OffsetAllowed(start, end, b.start - addr)
  }

  lemma AllocNearAdds(h: Heap, l: Layout, addr: Usize, start: Bound, end: Bound)
    requires HeapOk(h) && LayoutOk(l) && l.size > 0
    ensures
      var h' := AllocNearHeap(h, l, addr, start, end);
      && h'.adopted == h.adopted
      && match OutcomeOf(l, PlanInside(h, l, addr, start, end))
         case Allocated(b) => IsNewBlock(b, l, h.live, addr, start, end) && h'.live == h.live + {b}
         case _ => h' == h
  {
    AllocNearIsExact(h, l, addr, start, end);
    var plan := PlanInside(h, l, addr, start, end);
    if plan.Found? {
      TakenBlockIsNew(h, l, plan.spot);
      assert h.ranges[plan.spot.index] in h.ranges;
    }
  }

  lemma FreshIsNotLive(h: Heap, region: Range)
    requires HeapOk(h) && 0 <= region.start < region.end && Bytes(region) !! h.adopted
    ensures AdoptHeap(h, region).live == h.live
  {
    assert region.start in Bytes(region);
    assert region in h.live ==> region.start in LiveBytes(h.live);
  }

  // The request `Region::alloc_near` makes for these bounds.
  function RequestFor(l: Layout, addr: Usize, min: int, max: int, info: SysInfo): Request {
    Request(Max(SaturatingAddSigned(addr, min), info.minAddress),
            Min(SaturatingAddSigned(addr, max), SaturatingSub(info.maxAddress, l.size)), l.size)
  }

  // `Region::alloc_near`: bounds that leave nothing are an error here.
  ghost function NearReply(k: KernelState, info: SysInfo, l: Layout, addr: Usize, start: Bound, end: Bound): (OsReply, KernelState)
    requires SysInfoOk(info)
  {
    match (LowestOffset(start), HighestOffset(end))
    case (Some(min), Some(max)) => if min > max then (MapFailed, k) else MapReply(k, RequestFor(l, addr, min, max, info), info)
    case _ => (MapFailed, k)
  }

  method MapNear(kernel: Kernel, l: Layout, addr: Usize, start: Bound, end: Bound) returns (reply: OsReply)
    requires kernel.Valid() && l.size > 0
    modifies kernel
    ensures kernel.Valid() && old(kernel.Handed()) <= kernel.Handed()
    ensures (reply, kernel.State()) == NearReply(old(kernel.State()), kernel.info, l, addr, start, end)
    ensures reply.Mapped? ==>
              && ServesBounds(reply.region, l, addr, start, end, kernel.info)
              && Bytes(reply.region) !! old(kernel.Handed()) && Bytes(reply.region) <= kernel.Handed()
  {
    var lowest, highest := LowestOffset(start), HighestOffset(end);
    if lowest.None? || highest.None? || lowest.value > highest.value {
      return MapFailed;
    }
    var q := RequestFor(l, addr, lowest.value, highest.value, kernel.info);
    reply := kernel.Map(q);
    if reply.Mapped? {
      MappedServesBounds(reply.region, l, addr, start, end, kernel.info);
    }
  }

  // Where a block of the layout may begin in user memory.
  predicate MayBegin(p: int, l: Layout, addr: Usize, start: Bound, end: Bound, info: SysInfo) {
    info.minAddress <= p && p + l.size <= info.maxAddress && OffsetAllowed(start, end, p - addr)
  }

  /** The request asks for exactly the addresses in user memory whose offset is allowed. */
  lemma RequestAsksForTheBounds(p: int, l: Layout, addr: Usize, start: Bound, end: Bound, info: SysInfo)
    requires SysInfoOk(info) && LowestOffset(start).Some? && HighestOffset(end).Some?
    ensures
      var q := RequestFor(l, addr, LowestOffset(start).value, HighestOffset(end).value, info);
      q.minAddr <= p <= q.maxAddr <==> MayBegin(p, l, addr, start, end, info)
  {
  }

  // Whole pages in user memory, with room for the block where it may begin.
  ghost predicate ServesBounds(region: Range, l: Layout, addr: Usize, start: Bound, end: Bound, info: SysInfo) {
    && info.granularity > 0 && LowestOffset(start).Some? && HighestOffset(end).Some?
    && 1 <= region.start && region.start + MIN_RANGE_LEN <= region.end <= info.maxAddress
    && Aligned(region.start, info.granularity) && Aligned(region.end, info.granularity)
    && exists p :: MayBegin(p, l, addr, start, end, info) && region.start <= p && p + l.size <= region.end
  }

  lemma MappedServesBounds(region: Range, l: Layout, addr: Usize, start: Bound, end: Bound, info: SysInfo)
    requires SysInfoOk(info) && LowestOffset(start).Some? && HighestOffset(end).Some?
    requires IsMapped(region, RequestFor(l, addr, LowestOffset(start).value, HighestOffset(end).value, info), info)
    ensures ServesBounds(region, l, addr, start, end, info)
  {
    var p :| HoldsAt(region, RequestFor(l, addr, LowestOffset(start).value, HighestOffset(end).value, info), p);
    RequestAsksForTheBounds(p, l, addr, start, end, info);
  }

  /** If the kernel shows a map with unmapped whole pages that hold the block at any allowed
      address, and grants what is asked for, memory is mapped and serves the bounds. */
  lemma FreePageIsMapped(k: KernelState, info: SysInfo, map_: seq<RegionInfo>, page: Range, l: Layout, addr: Usize, start: Bound, end: Bound)
    requires KernelOk(k, info) && l.size > 0 && k.views != [] && k.views[0] == [Pass(map_, Granted)] && Reports(map_, k.handedOut)
    requires LowestOffset(start).Some? && HighestOffset(end).Some? && LowestOffset(start).value <= HighestOffset(end).value
    requires ServesBounds(page, l, addr, start, end, info) && info.minAddress <= page.start && Unmapped(page, map_)
    ensures
      var (reply, k') := NearReply(k, info, l, addr, start, end);
      && reply.Mapped? && k'.handedOut == k.handedOut + [reply.region]
      && ServesBounds(reply.region, l, addr, start, end, info) && Unmapped(reply.region, map_)
  {
    var q := RequestFor(l, addr, LowestOffset(start).value, HighestOffset(end).value, info);
    var p :| MayBegin(p, l, addr, start, end, info) && page.start <= p && p + l.size <= page.end;
    RequestAsksForTheBounds(p, l, addr, start, end, info);
    RequestAsksForTheBounds(q.maxAddr, l, addr, start, end, info);
    assert HoldsAt(page, q, p) && IsRoom(page, map_, q, info);
    assert k.views[0] in k.views && [Pass(map_, Granted)][0] in k.views[0];
    assert Reporting(k.views[0], k.handedOut) == [Pass(map_, Granted)];
    GrantedIfThereIsRoom(q, info, map_);
    var region := ReplyBetween(q, info, [Pass(map_, Granted)]).region;
    RoomIsMapped(region, map_, q, info);
    MappedServesBounds(region, l, addr, start, end, info);
  }

  lemma RoomIsMapped(region: Range, map_: seq<RegionInfo>, q: Request, info: SysInfo)
    requires RequestOk(q, info) && IsRoom(region, map_, q, info) && info.granularity >= MIN_RANGE_LEN
    ensures IsMapped(region, q, info)
  {
    var p :| HoldsAt(region, q, p);
    AlignedApart(region.start, region.end, info.granularity);
  }

  // ----- the allocator, then the kernel

  // Asking the allocator.
  ghost function AskHeap(h: Heap, k: KernelState, l: Layout, addr: Usize, start: Bound, end: Bound): (AllocReply, Memory)
    requires HeapOk(h) && LayoutOk(l)
  {
    match PlanInside(h, l, addr, start, end)
    case Found(spot) => (Block(BlockAt(l, spot)), Memory(AllocNearHeap(h, l, addr, start, end), k))
    case Overflow => (Panic, Memory(h, k))
    case NoFit => (NoMemory, Memory(h, k))
  }

  // After a refusal: what the kernel maps is adopted, and the allocator asked again.
  ghost function AskAgain(h: Heap, reply: OsReply, k: KernelState, l: Layout, addr: Usize, start: Bound, end: Bound): (AllocReply, Memory)
    requires HeapOk(h) && LayoutOk(l) && (reply.Mapped? ==> Adoptable(h, reply.region))
  {
    match reply
    case MapFailed => (OsFailure, Memory(h, k))
    case NothingFree => (NoMemory, Memory(h, k))
    case Mapped(region) =>
      AdoptKeepsHeapOk(h, region);
      AskHeap(AdoptHeap(h, region), k, l, addr, start, end)
  }

  ghost function AllocNearOs(m: Memory, info: SysInfo, l: Layout, addr: Usize, start: Bound, end: Bound): (AllocReply, Memory)
    requires MemoryOk(m, info) && LayoutOk(l) && l.size > 0
  {
    var first := AskHeap(m.heap, m.kernel, l, addr, start, end);
    if !first.0.NoMemory? then first
    else
      NearReplyIsFresh(m.kernel, info, l, addr, start, end);
      var near := NearReply(m.kernel, info, l, addr, start, end);
      AskAgain(m.heap, near.0, near.1, l, addr, start, end)
  }

  lemma NearReplyIsFresh(k: KernelState, info: SysInfo, l: Layout, addr: Usize, start: Bound, end: Bound)
    requires KernelOk(k, info) && l.size > 0
    ensures
      var (reply, k') := NearReply(k, info, l, addr, start, end);
      && KernelOk(k', info) && BytesOf(k.handedOut) <= BytesOf(k'.handedOut)
      && match reply
         case Mapped(region) =>
           && ServesBounds(region, l, addr, start, end, info) && 1 <= region.start <= region.end <= ISIZE_MAX
           && Bytes(region) !! BytesOf(k.handedOut) && Bytes(region) <= BytesOf(k'.handedOut)
         case _ => true
  {
    if LowestOffset(start).Some? && HighestOffset(end).Some? && LowestOffset(start).value <= HighestOffset(end).value && k.views != [] {
      var q := RequestFor(l, addr, LowestOffset(start).value, HighestOffset(end).value, info);
      assert k.views[0] in k.views;
      RequestFits(l, addr, LowestOffset(start).value, HighestOffset(end).value, info);
      MapReplyIsFresh(k, q, info);
      if MapReply(k, q, info).0.Mapped? {
        MappedServesBounds(MapReply(k, q, info).0.region, l, addr, start, end, info);
      }
    }
  }

  lemma RequestFits(l: Layout, addr: Usize, min: int, max: int, info: SysInfo)
    requires SysInfoOk(info)
    ensures
      var q := RequestFor(l, addr, min, max, info);
      info.minAddress <= q.minAddr && q.size == l.size && (q.minAddr <= q.maxAddr ==> q.maxAddr + q.size <= info.maxAddress)
  {
  }

  lemma MapReplyIsFresh(k: KernelState, q: Request, info: SysInfo)
    requires KernelOk(k, info) && info.minAddress <= q.minAddr && q.size > 0
    requires q.minAddr <= q.maxAddr ==> q.maxAddr + q.size <= info.maxAddress
    ensures
      var (reply, k') := MapReply(k, q, info);
      && KernelOk(k', info) && BytesOf(k.handedOut) <= BytesOf(k'.handedOut)
      && match reply
         case Mapped(region) => IsMapped(region, q, info) && Bytes(region) !! BytesOf(k.handedOut) && Bytes(region) <= BytesOf(k'.handedOut)
         case _ => true
  {
    if MapReply(k, q, info).0.Mapped? {
      var passes := Reporting(k.views[0], k.handedOut);
      var region := MapReply(k, q, info).0.region;
      assert k.views[0] in k.views;
      GotServes(q, info, passes);
      ServingRegionIsLarge(region, q, info);
      UnmappedIsNotHanded(region, passes, k.handedOut);
    }
  }

  /** `os_alloc_near`: ask the allocator; if it refuses, let it adopt memory mapped near
      the address and ask again. The second answer is a block if and only if a range below
      the top has room - for unaligned layouts always, except exactly when the new memory
      is only found at the highest address tried. */
  method OsAllocNear(alloc: BoundedRangeAllocator, kernel: Kernel, l: Layout, addr: Usize, start: Bound, end: Bound)
      returns (r: AllocReply, ghost mapped: Option<Range>)
    requires Consistent(alloc, kernel) && LayoutOk(l) && l.size > 0
    modifies alloc, kernel
    ensures Consistent(alloc, kernel)
    ensures (r, Memory(alloc.View(), kernel.State()))
            == AllocNearOs(Memory(old(alloc.View()), old(kernel.State())), kernel.info, l, addr, start, end)
    ensures Answered((r, Memory(alloc.View(), kernel.State())), old(alloc.View()), l, addr, start, end)
    ensures SecondTryServes(old(alloc.View()), l, addr, start, end, kernel.info, r, mapped)
  {
    ghost var m := Memory(alloc.View(), kernel.State());
    AllocNearOsOk(m, kernel.info, l, addr, start, end);
    SecondTryOk(m, kernel.info, l, addr, start, end);
    mapped := MappedBy(m, kernel.info, l, addr, start, end);
    r := AskAllocator(alloc, l, addr, start, end, m.kernel);
    if r.NoMemory? {
      NearReplyIsFresh(m.kernel, kernel.info, l, addr, start, end);
      var reply := MapNear(kernel, l, addr, start, end);
      match reply {
        case MapFailed => r := OsFailure;
        case NothingFree => r := NoMemory;
        case Mapped(region) =>
          alloc.AdoptRange(region);
          r := AskAllocator(alloc, l, addr, start, end, kernel.State());
      }
    }
  }

  method AskAllocator(alloc: BoundedRangeAllocator, l: Layout, addr: Usize, start: Bound, end: Bound, ghost k: KernelState)
      returns (r: AllocReply)
    requires alloc.Valid() && LayoutOk(l) && l.size > 0
    modifies alloc
    ensures alloc.Valid() && (r, Memory(alloc.View(), k)) == AskHeap(old(alloc.View()), k, l, addr, start, end)
  {
    AllocNearAdds(alloc.View(), l, addr, start, end);
    var out := alloc.AllocNear(l, addr, start, end);
    match out {
      case Allocated(b) => r := Block(b);
      case Refused => r := NoMemory;
      case Overflowed => r := Panic;
    }
  }

  ghost function MappedBy(m: Memory, info: SysInfo, l: Layout, addr: Usize, start: Bound, end: Bound): Option<Range>
    requires MemoryOk(m, info) && LayoutOk(l)
  {
    var reply := NearReply(m.kernel, info, l, addr, start, end).0;
    if AskHeap(m.heap, m.kernel, l, addr, start, end).0.NoMemory? && reply.Mapped? then Some(reply.region) else None
  }

  lemma SecondTryOk(m: Memory, info: SysInfo, l: Layout, addr: Usize, start: Bound, end: Bound)
    requires MemoryOk(m, info) && LayoutOk(l) && l.size > 0
    ensures SecondTryServes(m.heap, l, addr, start, end, info, AllocNearOs(m, info, l, addr, start, end).0,
                            MappedBy(m, info, l, addr, start, end))
  {
    NearReplyIsFresh(m.kernel, info, l, addr, start, end);
    var near := NearReply(m.kernel, info, l, addr, start, end);
    SecondAnswerIfItFits(m.heap, near.0, near.1, l, addr, start, end);
    if near.0.Mapped? && l.align == 1 {
      AdoptedRegionServes(m.heap, l, addr, start, end, info, near.0.region);
      HeapAnswersIfItFits(AdoptHeap(m.heap, near.0.region), near.1, l, addr, start, end);
      FoundIffFitsBelowTop(AdoptHeap(m.heap, near.0.region), l, addr, start, end);
    }
  }

  lemma HeapAnswersIfItFits(h: Heap, k: KernelState, l: Layout, addr: Usize, start: Bound, end: Bound)
    requires HeapOk(h) && LayoutOk(l) && l.size > 0
    ensures AskHeap(h, k, l, addr, start, end).0.Block? <==> FitsBelowTop(h, l, addr, start, end)
  {
    FoundIffFitsBelowTop(h, l, addr, start, end);
  }

  lemma SecondAnswerIfItFits(h: Heap, reply: OsReply, k: KernelState, l: Layout, addr: Usize, start: Bound, end: Bound)
    requires HeapOk(h) && LayoutOk(l) && l.size > 0 && (reply.Mapped? ==> Adoptable(h, reply.region))
    ensures AskAgain(h, reply, k, l, addr, start, end).0.Block? <==>
            reply.Mapped? && FitsBelowTop(AdoptHeap(h, reply.region), l, addr, start, end)
  {
    if reply.Mapped? {
      AdoptKeepsHeapOk(h, reply.region);
      HeapAnswersIfItFits(AdoptHeap(h, reply.region), k, l, addr, start, end);
    }
  }

  // What the kernel maps, if asked, gives some range below the top the room.
  ghost predicate MappingHelps(m: Memory, info: SysInfo, l: Layout, addr: Usize, start: Bound, end: Bound)
    requires MemoryOk(m, info) && LayoutOk(l) && l.size > 0
  {
    var reply := NearReply(m.kernel, info, l, addr, start, end).0;
    NearReplyIsFresh(m.kernel, info, l, addr, start, end);
    reply.Mapped? && FitsBelowTop(AdoptHeap(m.heap, reply.region), l, addr, start, end)
  }

  /** There is a block exactly if some range below the top has room for it, or has it after
      the kernel has mapped memory. (Rounding the lowest address up must not leave the
      address width, where the source panics.) */
  lemma BlockExactlyWhen(m: Memory, info: SysInfo, l: Layout, addr: Usize, start: Bound, end: Bound)
    requires MemoryOk(m, info) && LayoutOk(l) && l.size > 0
    requires !AskHeap(m.heap, m.kernel, l, addr, start, end).0.Panic?
    ensures AllocNearOs(m, info, l, addr, start, end).0.Block? <==>
            FitsBelowTop(m.heap, l, addr, start, end) || MappingHelps(m, info, l, addr, start, end)
  {
    HeapAnswersIfItFits(m.heap, m.kernel, l, addr, start, end);
    NearReplyIsFresh(m.kernel, info, l, addr, start, end);
    var near := NearReply(m.kernel, info, l, addr, start, end);
    SecondAnswerIfItFits(m.heap, near.0, near.1, l, addr, start, end);
  }

  ghost predicate Answered(r: (AllocReply, Memory), h: Heap, l: Layout, addr: Usize, start: Bound, end: Bound) {
    match r.0
    case Block(b) => IsNewBlock(b, l, h.live, addr, start, end) && r.1.heap.live == h.live + {b}
    case _ => r.1.heap.live == h.live
  }

  lemma AskHeapOk(h: Heap, k: KernelState, info: SysInfo, l: Layout, addr: Usize, start: Bound, end: Bound)
    requires MemoryOk(Memory(h, k), info) && LayoutOk(l) && l.size > 0
    ensures
      var r := AskHeap(h, k, l, addr, start, end);
      MemoryOk(r.1, info) && Answered(r, h, l, addr, start, end)
  {
    AllocNearStays(h, l, addr, start, end);
  }

  lemma AllocNearOsOk(m: Memory, info: SysInfo, l: Layout, addr: Usize, start: Bound, end: Bound)
    requires MemoryOk(m, info) && LayoutOk(l) && l.size > 0
    ensures
      var r := AllocNearOs(m, info, l, addr, start, end);
      MemoryOk(r.1, info) && Answered(r, m.heap, l, addr, start, end)
  {
    AskHeapOk(m.heap, m.kernel, info, l, addr, start, end);
    NearReplyIsFresh(m.kernel, info, l, addr, start, end);
    var near := NearReply(m.kernel, info, l, addr, start, end);
    if near.0.Mapped? {
      var region := near.0.region;
      FreshIsNotLive(m.heap, region);
      AdoptKeepsHeapOk(m.heap, region);
      AskHeapOk(AdoptHeap(m.heap, region), near.1, info, l, addr, start, end);
    }
  }

  lemma AllocNearStays(h: Heap, l: Layout, addr: Usize, start: Bound, end: Bound)
    requires HeapOk(h) && LayoutOk(l) && l.size > 0
    ensures
      var h' := AllocNearHeap(h, l, addr, start, end);
      && HeapOk(h') && h'.adopted == h.adopted
      && match OutcomeOf(l, PlanInside(h, l, addr, start, end))
         case Allocated(b) => IsNewBlock(b, l, h.live, addr, start, end) && h'.live == h.live + {b}
         case _ => h' == h
  {
    AllocNearAdds(h, l, addr, start, end);
    if LowestOffset(start).Some? && HighestOffset(end).Some? {
      AllocKeepsHeapOk(h, l, SaturatingAddSigned(addr, LowestOffset(start).value),
                       ClippedTop(h.maxAddr, l.size, addr, HighestOffset(end).value));
    }
  }

  // Memory is only mapped after a refusal, and it serves the request. Then there is a block
  // if and only if some range below the top has room for it, which for an unaligned layout
  // fails only at the top.
  ghost predicate SecondTryServes(h: Heap, l: Layout, addr: Usize, start: Bound, end: Bound, info: SysInfo,
                                  r: AllocReply, mapped: Option<Range>)
    requires HeapOk(h) && LayoutOk(l)
  {
    && (PlanInside(h, l, addr, start, end).Found? ==> r.Block? && mapped.None?)
    && (mapped.Some? ==> ServesBounds(mapped.value, l, addr, start, end, info))
    && (mapped.Some? ==> (r.Block? <==> FitsBelowTop(AdoptHeap(h, mapped.value), l, addr, start, end)))
    && (mapped.Some? && l.align == 1 ==>
          (r.Block? <==> !OnlyAtTop(AdoptHeap(h, mapped.value), l, addr, start, end, mapped.value)))
  }

  ghost predicate FitsBelowTop(h: Heap, l: Layout, addr: Usize, start: Bound, end: Bound)
    requires LayoutOk(l)
  {
    exists k, p :: 0 <= k < |h.ranges| && h.ranges[k].start < TopAddr(h, l, addr, end)
                   && FitsNear(h.ranges[k], p, l, addr, start, end)
  }

  lemma FoundIffFitsBelowTop(h: Heap, l: Layout, addr: Usize, start: Bound, end: Bound)
    requires HeapOk(h) && LayoutOk(l) && l.size > 0
    ensures PlanInside(h, l, addr, start, end).Found? <==> FitsBelowTop(h, l, addr, start, end)
  {
    AllocNearIsExact(h, l, addr, start, end);
  }

  // ----- what a mapped region is good for

  // The range that holds the region starts at the highest address tried, where the strict
  // comparison of the scan leaves it out, and nothing fits before it.
  ghost predicate OnlyAtTop(h: Heap, l: Layout, addr: Usize, start: Bound, end: Bound, region: Range)
    requires LayoutOk(l)
  {
    exists k :: 0 <= k < |h.ranges|
                && h.ranges[k].start <= region.start && region.end <= h.ranges[k].end
                && h.ranges[k].start == TopAddr(h, l, addr, end)
                && forall j, p :: 0 <= j < k ==> !FitsNear(h.ranges[j], p, l, addr, start, end)
  }

  /** After adopting a region that serves the request, an unaligned allocation succeeds if
      and only if the region is not found at the highest address only. */
  lemma AdoptedRegionServes(h: Heap, l: Layout, addr: Usize, start: Bound, end: Bound, info: SysInfo, region: Range)
    requires HeapOk(h) && LayoutOk(l) && l.align == 1 && l.size > 0 && SysInfoOk(info)
    requires ServesBounds(region, l, addr, start, end, info) && Bytes(region) !! h.adopted
    ensures
      var h' := AdoptHeap(h, region);
      && HeapOk(h')
      && (PlanInside(h', l, addr, start, end).Found? <==> !OnlyAtTop(h', l, addr, start, end, region))
  {
    var h' := AdoptHeap(h, region);
    AdoptKeepsHeapOk(h, region);
    var p :| MayBegin(p, l, addr, start, end, info) && region.start <= p && p + l.size <= region.end;
    var k := AdoptedRangeHoldsRegion(h, region);
    assert h'.ranges[k] in h'.ranges;
    RequestedByteFits(h', h'.ranges[k], region, p, l, addr, start, end, info);
    FoundUnlessAtTop(h', l, addr, start, end, region, k, p);
  }

  lemma FoundUnlessAtTop(h: Heap, l: Layout, addr: Usize, start: Bound, end: Bound, region: Range, k: nat, p: int)
    requires HeapOk(h) && LayoutOk(l) && l.size > 0 && k < |h.ranges|
    requires h.ranges[k].start <= region.start && region.end <= h.ranges[k].end
    requires FitsNear(h.ranges[k], p, l, addr, start, end) && p <= TopAddr(h, l, addr, end)
    ensures PlanInside(h, l, addr, start, end).Found? <==> !OnlyAtTop(h, l, addr, start, end, region)
  {
    AllocNearIsExact(h, l, addr, start, end);
    match PlanInside(h, l, addr, start, end) {
      case Found(spot) => FoundIsBelowTop(h, l, addr, start, end, region, spot.index, spot.addr);
      case NoFit =>
        assert h.ranges[k].start == TopAddr(h, l, addr, end);
        NothingFitsBefore(h.ranges, l, addr, start, end, TopAddr(h, l, addr, end), k);
      case Overflow => assert false;
    }
  }

  // Ranges at the top come after one that starts below it.
  lemma FoundIsBelowTop(h: Heap, l: Layout, addr: Usize, start: Bound, end: Bound, region: Range, i: nat, p: int)
    requires Ordered(h.ranges) && LayoutOk(l) && i < |h.ranges|
    requires h.ranges[i].start < TopAddr(h, l, addr, end) && FitsNear(h.ranges[i], p, l, addr, start, end)
    ensures !OnlyAtTop(h, l, addr, start, end, region)
  {
    forall k | 0 <= k < |h.ranges| && h.ranges[k].start == TopAddr(h, l, addr, end) ensures i < k {
    }
  }

  // If nothing below the top fits, then nothing in front of a range that starts there.
  lemma NothingFitsBefore(ranges: seq<Range>, l: Layout, addr: Usize, start: Bound, end: Bound, top: int, k: nat)
    requires Ordered(ranges) && LayoutOk(l) && l.size > 0 && k < |ranges| && ranges[k].start <= top
    requires forall j, q :: 0 <= j < |ranges| && ranges[j].start < top ==> !FitsNear(ranges[j], q, l, addr, start, end)
    ensures forall j, q :: 0 <= j < k ==> !FitsNear(ranges[j], q, l, addr, start, end)
  {
    forall j, q | 0 <= j < k ensures !FitsNear(ranges[j], q, l, addr, start, end) {
      assert ranges[j].end <= ranges[k].start;
    }
  }

  /** The exception is real: a page mapped for exactly its first address serves the request
      and is adopted, and still nothing is allocated. */
  lemma TopRegionIsRefused()
    ensures
      var (l, region, at) := (Layout(1, 1), Range(0x2000, 0x3000), Included(0));
      var h := After([Adopt(region)]);
      && LayoutOk(l) && HeapOk(h)
      && ServesBounds(region, l, 0x2000, at, at, SysInfo(0x1000, 0x1000, 0x10000))
      && SysInfoOk(SysInfo(0x1000, 0x1000, 0x10000))
      && PlanInside(h, l, 0x2000, at, at) == NoFit
  {
    var region := Range(0x2000, 0x3000);
    EveryRunKeepsTheHeap([Adopt(region)]);
    OneAdoption(region);
    assert MayBegin(0x2000, Layout(1, 1), 0x2000, Included(0), Included(0), SysInfo(0x1000, 0x1000, 0x10000));
  }

  // The address the kernel's answer serves is one the allocator may choose.
  lemma RequestedByteFits(h: Heap, r: Range, region: Range, p: int, l: Layout, addr: Usize, start: Bound, end: Bound, info: SysInfo)
    requires HeapOk(h) && r in h.ranges && LayoutOk(l) && l.align == 1 && l.size > 0 && SysInfoOk(info)
    requires LowestOffset(start).Some? && HighestOffset(end).Some?
    requires 1 <= region.start && r.start <= region.start && region.end <= r.end
    requires MayBegin(p, l, addr, start, end, info) && region.start <= p && p + l.size <= region.end
    ensures FitsNear(r, p, l, addr, start, end) && region.start <= p <= TopAddr(h, l, addr, end)
  {
    RoundDownIsGreatest(ClippedTop(h.maxAddr, l.size, addr, HighestOffset(end).value), 1);
  }

  lemma AdoptedRangeHoldsRegion(h: Heap, region: Range) returns (k: nat)
    requires Ordered(h.ranges) && region.start < region.end && region.end - region.start >= MIN_RANGE_LEN
    ensures k < |Insert(h.ranges, region)|
    ensures Insert(h.ranges, region)[k].start <= region.start && region.end <= Insert(h.ranges, region)[k].end
  {
    var i := InsertIndex(h.ranges, region);
    k := if GrowsDown(h.ranges, region) then i else if GrowsUp(h.ranges, region) then i - 1 else i;
  }
}
