/** `BoundedRangeAllocator`: allocate near an address, out of ranges adopted before. */
module RangeAllocator {
  import opened Results
  import opened Rounding
  import opened Searching
  import opened Ranges
  import opened RangeHeap

  datatype Bound = Included(v: Isize) | Excluded(v: Isize) | Unbounded

  // `Overflowed`: rounding the lower bound up left the address width.
  datatype Outcome = Allocated(block: Range) | Refused | Overflowed

  // The offsets the bounds leave, inclusive; None when they leave nothing.
  function LowestOffset(start: Bound): Option<int> {
    match start
    case Included(v) => Some(v)
    case Excluded(v) => if v == ISIZE_MAX then None else Some(v + 1)
    case Unbounded => Some(ISIZE_MIN)
  }

  function HighestOffset(end: Bound): Option<int> {
    match end
    case Included(v) => Some(v)
    case Excluded(v) => if v == ISIZE_MIN then None else Some(v - 1)
    case Unbounded => Some(ISIZE_MAX)
  }

  // Highest address tried for a block of this size: the request clipped by the cached hint.
  function ClippedTop(maxHint: nat, size: nat, addr: Usize, max: int): int {
    Min(SaturatingAddSigned(addr, max), SaturatingSub(maxHint, size))
  }

  function PlanInside(h: Heap, l: Layout, addr: Usize, start: Bound, end: Bound): Plan
    requires LayoutOk(l)
    requires forall k :: 0 <= k < |h.ranges| ==> h.ranges[k].end >= 0
  {
    match (LowestOffset(start), HighestOffset(end))
    case (Some(min), Some(max)) =>
      PlanBetween(h, l, SaturatingAddSigned(addr, min), ClippedTop(h.maxAddr, l.size, addr, max))
    case _ => NoFit
  }

  function OutcomeOf(l: Layout, plan: Plan): Outcome {
    match plan
    case Found(spot) => Allocated(BlockAt(l, spot))
    case NoFit => Refused
    case Overflow => Overflowed
  }

  ghost function AllocNearHeap(h: Heap, l: Layout, addr: Usize, start: Bound, end: Bound): Heap
    requires LayoutOk(l) && Ordered(h.ranges)
  {
    match (LowestOffset(start), HighestOffset(end))
    case (Some(min), Some(max)) =>
      AllocHeap(h, l, SaturatingAddSigned(addr, min), ClippedTop(h.maxAddr, l.size, addr, max))
    case _ => h
  }

  class BoundedRangeAllocator {
    var ranges: seq<Range>
    var minAddr: nat
    var maxAddr: nat
    ghost var live: set<Range>
    ghost var adopted: set<int>
    ghost var forgotten: set<int>

    ghost function View(): Heap
      reads this
    {
      Heap(ranges, minAddr, maxAddr, live, adopted, forgotten)
    }

    ghost predicate Valid()
      reads this
    {
      HeapOk(View())
    }

    // The zeroed bit pattern.
    constructor ()
      ensures View() == EmptyHeap() && Valid()
    {
      ranges, minAddr, maxAddr := [], 0, 0;
      live, adopted, forgotten := {}, {}, {};
      new;
      EmptyHeapIsOk();
    }

    // Grows a neighbour, or keeps the range by itself if it is long enough.
    method AdoptIntoList(range: Range)
      requires range.start < range.end && Partitioned(ranges, (r: Range) => r.start < range.end)
      modifies this`ranges
      ensures ranges == Insert(old(ranges), range)
    {
      var index := PartitionPoint(ranges, (r: Range) => r.start < range.end);
      assert index == InsertIndex(ranges, range);
      if index < |ranges| && ranges[index].start == range.end {
        ranges := ranges[index := Range(range.start, ranges[index].end)];
      } else if index > 0 && ranges[index - 1].end == range.start {
        ranges := ranges[index - 1 := Range(ranges[index - 1].start, range.end)];
      } else if range.end - range.start >= MIN_RANGE_LEN {
        ranges := ranges[..index] + [range] + ranges[index..];
      }
    }

    // `adopt_range` on a non-empty range.
    method AdoptNonEmpty(range: Range)
      requires Ordered(ranges) && 0 <= range.start < range.end
      modifies this
      ensures View() == AdoptHeap(old(View()), range)
    {
      if WrappingDec(minAddr) > range.start {
        minAddr := range.start + 1;
      }
      if maxAddr < range.end {
        maxAddr := range.end;
      }
      AdoptIntoList(range);
      live := live - {range};
      adopted := adopted + Bytes(range);
      forgotten := forgotten + if Forgets(old(ranges), range) then Bytes(range) else {};
    }

    /** Takes fresh memory, or a live block back, into the range list. */
    method AdoptRange(range: Range)
      requires Valid() && Adoptable(View(), range)
      modifies this
      ensures View() == AdoptHeap(old(View()), range)
      ensures Valid()
    {
      AdoptKeepsHeapOk(View(), range);
      if range.start < range.end {
        AdoptNonEmpty(range);
      }
    }

    /** `reclaim`: a client gives a block back. */
    method Reclaim(block: Range)
      requires Valid() && (block in live || block.start == block.end)
      requires 1 <= block.start <= block.end <= ISIZE_MAX
      modifies this
      ensures Valid() && View() == AdoptHeap(old(View()), block)
    {
      AdoptRange(block);
    }

    // A client cuts a block it owns in two; the allocator itself does nothing.
    ghost method SplitBlock(block: Range, at: int)
      requires Valid() && block in live && block.start < at < block.end
      modifies this
      ensures Valid() && View() == CutHeap(old(View()), block, at)
    {
      CutKeepsHeapOk(View(), block, at);
      live := live - {block} + {Range(block.start, at), Range(at, block.end)};
    }

    method AllocFromStart(i: nat, size: nat) returns (block: Range)
      requires i < |ranges|
      modifies this`ranges
      ensures ranges == old(ranges)[i := Range(old(ranges[i].start) + size, old(ranges[i].end))]
      ensures block == Range(old(ranges[i].start), old(ranges[i].start) + size)
    {
      block := Range(ranges[i].start, ranges[i].start + size);
      ranges := ranges[i := Range(ranges[i].start + size, ranges[i].end)];
    }

    method AllocFromEnd(i: nat, size: nat) returns (block: Range)
      requires i < |ranges|
      modifies this`ranges
      ensures ranges == old(ranges)[i := Range(old(ranges[i].start), old(ranges[i].end) - size)]
      ensures block == Range(old(ranges[i].end) - size, old(ranges[i].end))
    {
      block := Range(ranges[i].end - size, ranges[i].end);
      ranges := ranges[i := Range(ranges[i].start, ranges[i].end - size)];
    }

    method AllocLayoutBetween(l: Layout, minReq: Usize, maxReq: Usize) returns (out: Outcome)
      requires Valid() && LayoutOk(l)
      modifies this
      ensures View() == AllocHeap(old(View()), l, minReq, maxReq)
      ensures Valid()
      ensures out == OutcomeOf(l, PlanBetween(old(View()), l, minReq, maxReq))
    {
      AllocKeepsHeapOk(View(), l, minReq, maxReq);
      out := AllocBetween(l, minReq, maxReq);
    }

    method AllocBetween(l: Layout, minReq: Usize, maxReq: Usize) returns (out: Outcome)
      requires Ordered(ranges) && LayoutOk(l)
      modifies this
      ensures View() == AllocHeap(old(View()), l, minReq, maxReq)
      ensures out == OutcomeOf(l, PlanBetween(old(View()), l, minReq, maxReq))
    {
      var lo := RoundUp(minReq, l.align);
      var hi := RoundDown(maxReq, l.align);
      if lo > USIZE_MAX {
        return Overflowed;
      }
      // Nothing ever adopted lies between the bounds.
      if lo > hi || maxAddr <= lo || WrappingDec(minAddr) >= hi {
        return Refused;
      }
      var found, i, min, max := FindRange(l, lo, hi);
      if !found {
        return Refused;
      }
      ghost var spot := FirstFit(ranges, l.size, l.align, lo, hi).value;
      var block := CarveFrom(l, i, lo, hi, min, max);
      if l.size > 0 {
        live := live + {block};
      }
      forgotten := forgotten + Bytes(Fragment(old(ranges), l.size, spot));
      out := Allocated(block);
    }

    // The loop over the candidate ranges, lowest first.
    method FindRange(l: Layout, lo: int, hi: int) returns (found: bool, i: nat, min: int, max: int)
      requires LayoutOk(l) && Ordered(ranges)
      ensures !found ==> FirstFit(ranges, l.size, l.align, lo, hi) == None
      ensures found ==>
                && i < |ranges| && min <= max
                && min == LowestAddr(ranges[i], l.align, lo)
                && max == HighestAddr(ranges[i], l.size, l.align, hi)
                && Place(ranges[i], l.size, l.align, lo, hi).Some?
                && var at := Place(ranges[i], l.size, l.align, lo, hi).value;
                FirstFit(ranges, l.size, l.align, lo, hi) == Some(Spot(i, at.0, at.1))
    {
      found, min, max := false, 0, 0;
      var index := PartitionPoint(ranges, (r: Range) => r.end <= lo);
      assert index == SkipIndex(ranges, lo);
      i := index;
      while i < |ranges| && ranges[i].start < hi
        invariant i <= |ranges| && !found
        invariant Scan(ranges, index, l.size, l.align, lo, hi) == Scan(ranges, i, l.size, l.align, lo, hi)
        decreases |ranges| - i
      {
        min := RoundUp(Max(ranges[i].start, lo), l.align);
        max := RoundDown(Min(SaturatingSub(ranges[i].end, l.size), hi), l.align);
        if min <= max {
          found := true;
          return;
        }
        i := i + 1;
      }
    }

    // Takes the block out of range `i`, which is known to be large enough.
    method CarveFrom(l: Layout, i: nat, ghost lo: int, ghost hi: int, min: int, max: int) returns (block: Range)
      requires LayoutOk(l) && Ordered(ranges) && i < |ranges| && min <= max
      requires min == LowestAddr(ranges[i], l.align, lo)
      requires max == HighestAddr(ranges[i], l.size, l.align, hi)
      modifies this`ranges
      ensures
        var at := Place(old(ranges[i]), l.size, l.align, lo, hi);
        && at.Some?
        && var spot := Spot(i, at.value.0, at.value.1);
        && SpotOk(old(ranges), l.size, spot)
        && ranges == Carve(old(ranges), l.size, spot)
        && block == BlockAt(l, spot)
    {
      PlaceIsExact(ranges[i], l.size, l.align, lo, hi);
      CarveAtAnEnd(ranges, l.size, i);
      var start, end, size := ranges[i].start, ranges[i].end, l.size;
      if l.align == 1 {
        if start == min {
          block := AllocFromStart(i, size);
          return;
        }
        if end == max + size {
          block := AllocFromEnd(i, size);
          return;
        }
      } else {
        if end == max + size {
          block := AllocFromEnd(i, size);
          return;
        }
        if start == min {
          block := AllocFromStart(i, size);
          return;
        }
      }
      block := AllocInside(i, min, size);
    }

    // The block lies inside the range.
    method AllocInside(i: nat, min: int, size: nat) returns (block: Range)
      requires SpotOk(ranges, size, Spot(i, min, Split))
      modifies this`ranges
      ensures ranges == Carve(old(ranges), size, Spot(i, min, Split)) && block == Range(min, min + size)
    {
      var start, end := ranges[i].start, ranges[i].end;
      ranges := ranges[i := Range(min + size, end)];
      if min - start >= MIN_RANGE_LEN {
        ranges := ranges[..i] + [Range(start, min)] + ranges[i..];
      }
      block := Range(min, min + size);
    }

    /** `alloc_near`: a block whose offset from `addr` lies between the bounds. */
    method AllocNear(l: Layout, addr: Usize, start: Bound, end: Bound) returns (out: Outcome)
      requires Valid() && LayoutOk(l)
      modifies this
      ensures Valid() && View() == AllocNearHeap(old(View()), l, addr, start, end)
      ensures out == OutcomeOf(l, PlanInside(old(View()), l, addr, start, end))
    {
      var lowest, highest := LowestOffset(start), HighestOffset(end);
      if lowest.None? || highest.None? {
        return Refused;
      }
      var minReq := SaturatingAddSigned(addr, lowest.value);
      var maxReq := Min(SaturatingAddSigned(addr, highest.value), SaturatingSub(maxAddr, l.size));
      out := AllocLayoutBetween(l, minReq, maxReq);
    }
  }

  // At either end of a range, carving only moves that end.
  lemma CarveAtAnEnd(ranges: seq<Range>, size: nat, i: nat)
    requires i < |ranges|
    ensures
      var r := ranges[i];
      && (SpotOk(ranges, size, Spot(i, r.start, AtStart)) ==>
            Carve(ranges, size, Spot(i, r.start, AtStart)) == ranges[i := Range(r.start + size, r.end)])
      && (SpotOk(ranges, size, Spot(i, r.end - size, AtEnd)) ==>
            Carve(ranges, size, Spot(i, r.end - size, AtEnd)) == ranges[i := Range(r.start, r.end - size)])
  {
  }

  // ----- what the answer means

  // `RangeBounds::contains` on an offset that is an `isize`.
  predicate OffsetAllowed(start: Bound, end: Bound, offset: int) {
    && ISIZE_MIN <= offset <= ISIZE_MAX
    && (match start case Included(v) => v <= offset case Excluded(v) => v < offset case Unbounded => true)
    && (match end case Included(v) => offset <= v case Excluded(v) => offset < v case Unbounded => true)
  }

  predicate FitsNear(r: Range, p: int, l: Layout, addr: int, start: Bound, end: Bound)
    requires LayoutOk(l)
  {
    && Aligned(p, l.align)
    && r.start <= p && p + l.size <= r.end
    && OffsetAllowed(start, end, p - addr)
  }

  // The rounded upper bound; ranges starting at it or above are not tried.
  function TopAddr(h: Heap, l: Layout, addr: Usize, end: Bound): int
    requires LayoutOk(l)
  {
    match HighestOffset(end)
    case Some(max) => RoundDown(ClippedTop(h.maxAddr, l.size, addr, max), l.align)
    case None => 0
  }

  // Inside a free range the saturated, rounded bounds say the same as the requested ones.
  lemma BoundsAgree(h: Heap, l: Layout, addr: Usize, start: Bound, end: Bound, k: nat, p: int)
    requires HeapOk(h) && LayoutOk(l) && l.size > 0 && k < |h.ranges|
    requires LowestOffset(start).Some? && HighestOffset(end).Some?
    ensures
      FitsNear(h.ranges[k], p, l, addr, start, end) <==>
      Fits(h.ranges[k], p, l.size, l.align,
           RoundUp(SaturatingAddSigned(addr, LowestOffset(start).value), l.align), TopAddr(h, l, addr, end))
  {
    var (min, max) := (LowestOffset(start).value, HighestOffset(end).value);
    RoundUpIsLeast(SaturatingAddSigned(addr, min), l.align);
    RoundDownIsGreatest(ClippedTop(h.maxAddr, l.size, addr, max), l.align);
    assert h.ranges[k] in h.ranges;
  }

  /** `alloc_near` is exact for non-empty layouts. A block it finds is aligned, lies in
      one free range and is at an allowed offset from `addr` as unbounded integers; it
      refuses exactly when no range starting strictly below the rounded upper bound
      holds such a block. */
  lemma AllocNearIsExact(h: Heap, l: Layout, addr: Usize, start: Bound, end: Bound)
    requires HeapOk(h) && LayoutOk(l) && l.size > 0
    ensures
      match PlanInside(h, l, addr, start, end)
      case Found(spot) =>
        && SpotOk(h.ranges, l.size, spot)
        && h.ranges[spot.index].start < TopAddr(h, l, addr, end)
        && FitsNear(h.ranges[spot.index], spot.addr, l, addr, start, end)
        && forall k, p :: 0 <= k < spot.index ==> !FitsNear(h.ranges[k], p, l, addr, start, end)
      case NoFit =>
        forall k, p :: 0 <= k < |h.ranges| && h.ranges[k].start < TopAddr(h, l, addr, end)
          ==> !FitsNear(h.ranges[k], p, l, addr, start, end)
      case Overflow =>
        && LowestOffset(start).Some?
        && RoundUp(SaturatingAddSigned(addr, LowestOffset(start).value), l.align) > USIZE_MAX
        && forall k, p :: 0 <= k < |h.ranges| ==> !FitsNear(h.ranges[k], p, l, addr, start, end)
  {
    if LowestOffset(start).Some? && HighestOffset(end).Some? {
      if PlanInside(h, l, addr, start, end).Found? {
        FoundIsFirstFit(h, l, addr, start, end);
      } else {
        RefusedMeansNoFit(h, l, addr, start, end);
      }
    }
  }

  // The rounded lower bound.
  function BottomAddr(l: Layout, addr: Usize, start: Bound): int
    requires LayoutOk(l)
  {
    match LowestOffset(start)
    case Some(min) => RoundUp(SaturatingAddSigned(addr, min), l.align)
    case None => 0
  }

  lemma FoundIsFirstFit(h: Heap, l: Layout, addr: Usize, start: Bound, end: Bound)
    requires HeapOk(h) && LayoutOk(l) && l.size > 0 && PlanInside(h, l, addr, start, end).Found?
    ensures
      var spot := PlanInside(h, l, addr, start, end).spot;
      && SpotOk(h.ranges, l.size, spot)
      && h.ranges[spot.index].start < TopAddr(h, l, addr, end)
      && FitsNear(h.ranges[spot.index], spot.addr, l, addr, start, end)
      && forall k, p :: 0 <= k < spot.index ==> !FitsNear(h.ranges[k], p, l, addr, start, end)
  {
    var spot := PlanInside(h, l, addr, start, end).spot;
    FirstFitIsExact(h.ranges, l.size, l.align, BottomAddr(l, addr, start), TopAddr(h, l, addr, end));
    BoundsAgree(h, l, addr, start, end, spot.index, spot.addr);
    forall k, p | 0 <= k < spot.index ensures !FitsNear(h.ranges[k], p, l, addr, start, end) {
      BoundsAgree(h, l, addr, start, end, k, p);
    }
  }

  lemma RefusedMeansNoFit(h: Heap, l: Layout, addr: Usize, start: Bound, end: Bound)
    requires HeapOk(h) && LayoutOk(l) && l.size > 0 && !PlanInside(h, l, addr, start, end).Found?
    requires LowestOffset(start).Some? && HighestOffset(end).Some?
    ensures PlanInside(h, l, addr, start, end).Overflow? <==> BottomAddr(l, addr, start) > USIZE_MAX
    ensures forall k, p :: 0 <= k < |h.ranges| && (BottomAddr(l, addr, start) > USIZE_MAX || h.ranges[k].start < TopAddr(h, l, addr, end))
              ==> !FitsNear(h.ranges[k], p, l, addr, start, end)
  {
    var (lo, hi) := (BottomAddr(l, addr, start), TopAddr(h, l, addr, end));
    FirstFitIsExact(h.ranges, l.size, l.align, lo, hi);
    RejectedEarlyMeansNoFit(h, l, lo, hi);
    forall k, p | 0 <= k < |h.ranges| && (lo > USIZE_MAX || h.ranges[k].start < hi) ensures !FitsNear(h.ranges[k], p, l, addr, start, end) {
      BoundsAgree(h, l, addr, start, end, k, p);
      assert h.ranges[k] in h.ranges;
    }
  }

  // ----- the cached hints

  // The scan without the cached hints: no early rejection, no clipping.
  function PlainPlan(h: Heap, l: Layout, addr: Usize, min: int, max: int): Plan
    requires LayoutOk(l)
    requires forall k :: 0 <= k < |h.ranges| ==> h.ranges[k].end >= 0
  {
    match FirstFit(h.ranges, l.size, l.align,
                   RoundUp(SaturatingAddSigned(addr, min), l.align),
                   RoundDown(SaturatingAddSigned(addr, max), l.align))
    case Some(spot) => Found(spot)
    case None => NoFit
  }

  lemma RoundTwice(a: int, b: int, align: nat)
    requires align > 0
    ensures RoundDown(Min(a, RoundDown(b, align)), align) == RoundDown(Min(a, b), align)
  {
    RoundDownIsGreatest(b, align);
    RoundDownIsGreatest(Min(a, b), align);
    RoundDownIsGreatest(Min(a, RoundDown(b, align)), align);
  }

  // Clipping the request at the highest end does not move the block inside a range.
  lemma PlaceIgnoresClip(r: Range, size: nat, align: nat, lo: int, request: int, maxHint: nat)
    requires align > 0 && 0 <= r.end <= maxHint && size <= r.end
    ensures Place(r, size, align, lo, RoundDown(Min(request, SaturatingSub(maxHint, size)), align))
            == Place(r, size, align, lo, RoundDown(request, align))
  {
    RoundTwice(SaturatingSub(r.end, size), Min(request, SaturatingSub(maxHint, size)), align);
    RoundTwice(SaturatingSub(r.end, size), request, align);
  }

  lemma ClipLowersTop(a: int, b: int, align: nat)
    requires align > 0
    ensures RoundDown(Min(a, b), align) <= RoundDown(a, align)
    ensures RoundDown(Min(a, b), align) <= b
  {
    RoundDownIsGreatest(a, align);
    RoundDownIsGreatest(Min(a, b), align);
  }

  lemma FitsIgnoresClip(r: Range, p: int, size: nat, align: nat, lo: int, request: int, maxHint: nat)
    requires align > 0 && r.end <= maxHint
    ensures Fits(r, p, size, align, lo, RoundDown(Min(request, SaturatingSub(maxHint, size)), align))
            <==> Fits(r, p, size, align, lo, RoundDown(request, align))
  {
    RoundDownIsGreatest(request, align);
    RoundDownIsGreatest(Min(request, SaturatingSub(maxHint, size)), align);
  }

  /** The hints change the plain scan's answer in exactly one case: the range the plain
      scan would use starts at the clipped, rounded upper bound. Then the block is refused. */
  lemma HintsOnlyRefuseAtTheTop(h: Heap, l: Layout, addr: Usize, start: Bound, end: Bound)
    requires HeapOk(h) && LayoutOk(l) && l.size > 0
    requires LowestOffset(start).Some? && HighestOffset(end).Some?
    requires RoundUp(SaturatingAddSigned(addr, LowestOffset(start).value), l.align) <= USIZE_MAX
    ensures
      var plain := PlainPlan(h, l, addr, LowestOffset(start).value, HighestOffset(end).value);
      var refusedByHint := plain.Found? && plain.spot.index < |h.ranges|
                           && h.ranges[plain.spot.index].start == TopAddr(h, l, addr, end);
      PlanInside(h, l, addr, start, end) == if refusedByHint then NoFit else plain
  {
    var lo := RoundUp(SaturatingAddSigned(addr, LowestOffset(start).value), l.align);
    ClippedFirstFit(h.ranges, l.size, l.align, lo, SaturatingAddSigned(addr, HighestOffset(end).value), h.maxAddr);
    RejectedEarlyMeansNoFit(h, l, lo, TopAddr(h, l, addr, end));
  }

  // Clipping the request hides the range that starts at the clipped bound, and no other.
  lemma ClippedFirstFit(ranges: seq<Range>, size: nat, align: nat, lo: int, request: int, maxHint: nat)
    requires Ordered(ranges) && align > 0 && size > 0 && forall r :: r in ranges ==> r.end <= maxHint
    ensures
      var hi := RoundDown(Min(request, SaturatingSub(maxHint, size)), align);
      FirstFit(ranges, size, align, lo, hi) ==
      match FirstFit(ranges, size, align, lo, RoundDown(request, align))
      case Some(spot) => if spot.index < |ranges| && ranges[spot.index].start == hi then None else Some(spot)
      case None => None
  {
    var hi0 := RoundDown(request, align);
    var hi := RoundDown(Min(request, SaturatingSub(maxHint, size)), align);
    ClipLowersTop(request, SaturatingSub(maxHint, size), align);
    FirstFitIsExact(ranges, size, align, lo, hi0);
    FirstFitIsExact(ranges, size, align, lo, hi);
    forall k: nat, p | k < |ranges| ensures Fits(ranges[k], p, size, align, lo, hi) <==> Fits(ranges[k], p, size, align, lo, hi0) {
      FitsIgnoresClip(ranges[k], p, size, align, lo, request, maxHint);
    }
    var plain := FirstFit(ranges, size, align, lo, hi0);
    if plain.Some? {
      var r := ranges[plain.value.index];
      PlaceIgnoresClip(r, size, align, lo, request, maxHint);
      assert Fits(r, plain.value.addr, size, align, lo, hi);
    }
  }

  lemma RejectedEarlyMeansNoFit(h: Heap, l: Layout, lo: int, hi: int)
    requires HeapOk(h) && LayoutOk(l) && l.size > 0
    ensures lo > hi || h.maxAddr <= lo || WrappingDec(h.minAddr) >= hi ==> FirstFit(h.ranges, l.size, l.align, lo, hi) == None
  {
    FirstFitIsExact(h.ranges, l.size, l.align, lo, hi);
    if FirstFit(h.ranges, l.size, l.align, lo, hi).Some? {
      assert h.ranges[FirstFit(h.ranges, l.size, l.align, lo, hi).value.index] in h.ranges;
    }
  }

  lemma OneAdoption(r: Range)
    requires 1 <= r.start && r.start + MIN_RANGE_LEN <= r.end <= ISIZE_MAX
    ensures After([Adopt(r)]) == AdoptHeap(EmptyHeap(), r)
    ensures AdoptHeap(EmptyHeap(), r) == Heap([r], r.start + 1, r.end, {}, Bytes(r), {})
  {
    assert [Adopt(r)][1..] == [];
    assert Run(EmptyHeap(), [Adopt(r)]) == Run(Step(EmptyHeap(), Adopt(r)), []);
  }

  /** So the hints are not transparent: a lone range of exactly the requested size is
      refused although the plain scan would hand it out. */
  lemma HintsCanRefuseTheOnlyFit()
    ensures
      var h := Heap([Range(0x1000, 0x1008)], 0x1001, 0x1008, {}, Bytes(Range(0x1000, 0x1008)), {});
      && HeapOk(h) && h == After([Adopt(Range(0x1000, 0x1008))])
      && PlanInside(h, Layout(8, 8), 0x1000, Unbounded, Unbounded) == NoFit
      && PlainPlan(h, Layout(8, 8), 0x1000, ISIZE_MIN, ISIZE_MAX) == Found(Spot(0, 0x1000, AtEnd))
  {
    var r := Range(0x1000, 0x1008);
    var h := Heap([r], 0x1001, 0x1008, {}, Bytes(r), {});
    FreeBytesOfOne(r);
    assert LiveBytes({}) == {};
    assert 0x1000 in Bytes(r);
    assert HeapOk(h);
    OneAdoption(r);
    HintsOnlyRefuseAtTheTop(h, Layout(8, 8), 0x1000, Unbounded, Unbounded);
  }
}
