/** The allocator's memory seen as a whole: the range list with its two cached hints,
    the blocks clients own, every byte ever adopted and the bytes given up. */
module RangeHeap {
  import opened Rounding
  import opened Searching
  import opened Ranges

  datatype Layout = Layout(size: nat, align: nat)

  // What Rust guarantees of a `Layout`: the alignment is a power of two of the address width.
  predicate LayoutOk(l: Layout) {
    1 <= l.align <= 0x8000_0000_0000_0000
  }

  datatype Heap = Heap(
    ranges: seq<Range>,
    minAddr: nat,          // lowest start ever adopted, plus one; 0 before any
    maxAddr: nat,          // highest end ever adopted
    live: set<Range>,      // non-empty blocks owned by clients
    adopted: set<int>,
    forgotten: set<int>)

  ghost function EmptyHeap(): Heap {
    Heap([], 0, 0, {}, {}, {})
  }

  ghost function LiveBytes(live: set<Range>): set<int> {
    set b, x | b in live && x in Bytes(b) :: x
  }

  // ----- the invariant

  ghost predicate HintsOk(h: Heap) {
    && h.maxAddr <= ISIZE_MAX
    && forall r :: r in h.ranges ==> 1 <= h.minAddr <= r.start + 1 && r.end <= h.maxAddr
  }

  ghost predicate LiveOk(h: Heap) {
    && (forall b :: b in h.live ==> 1 <= b.start < b.end)
    && (forall b, c :: b in h.live && c in h.live ==> b == c || Apart(b, c))
    && (forall r, b :: r in h.ranges && b in h.live ==> Apart(r, b))
  }

  ghost predicate BytesOk(h: Heap) {
    && h.adopted == FreeBytes(h.ranges) + LiveBytes(h.live) + h.forgotten
    && FreeBytes(h.ranges) !! h.forgotten
    && LiveBytes(h.live) !! h.forgotten
    && FreeBytes(h.ranges) !! LiveBytes(h.live)
  }

  // Even an empty range stands at the edge of memory that was adopted.
  ghost predicate AnchorsOk(h: Heap) {
    forall r :: r in h.ranges ==> r.start in h.adopted || r.start - 1 in h.adopted
  }

  ghost predicate HeapOk(h: Heap) {
    Ordered(h.ranges) && HintsOk(h) && LiveOk(h) && BytesOk(h) && AnchorsOk(h)
  }

  // ----- adopting and reclaiming

  function WrappingDec(x: nat): nat {
    if x == 0 then USIZE_MAX else x - 1
  }

  function LowHint(minAddr: nat, b: Range): nat
    requires b.start >= 0
  {
    if WrappingDec(minAddr) > b.start then b.start + 1 else minAddr
  }

  function HighHint(maxAddr: nat, b: Range): nat
    requires b.end >= 0
  {
    if maxAddr < b.end then b.end else maxAddr
  }

  // Memory no range or client ever had, or a block a client gives back.
  ghost predicate Adoptable(h: Heap, b: Range) {
    && 1 <= b.start <= b.end <= ISIZE_MAX
    && (b.start == b.end || b in h.live || Bytes(b) !! h.adopted)
  }

  ghost function AdoptHeap(h: Heap, b: Range): Heap
    requires 0 <= b.start <= b.end
  {
    if b.start == b.end then h
    else
      Heap(Insert(h.ranges, b), LowHint(h.minAddr, b), HighHint(h.maxAddr, b), h.live - {b},
           h.adopted + Bytes(b), h.forgotten + if Forgets(h.ranges, b) then Bytes(b) else {})
  }

  lemma FreshIsApartFromRange(h: Heap, b: Range, r: Range)
    requires HeapOk(h) && b.start < b.end && Bytes(b) !! h.adopted && r in h.ranges
    ensures Apart(r, b)
  {
    RangeBytesAreFree(h.ranges, r);
    var x := Max(r.start, b.start);
    if r.start < r.end {
      assert x in Bytes(r) <==> x < r.end;
      assert x in Bytes(b) <==> x < b.end;
    } else {
      assert r.start in Bytes(b) <==> b.start <= r.start < b.end;
      assert r.start - 1 in Bytes(b) <==> b.start < r.start <= b.end;
    }
  }

  lemma FreshIsApartFromLive(h: Heap, b: Range, c: Range)
    requires HeapOk(h) && b.start < b.end && Bytes(b) !! h.adopted && c in h.live
    ensures Apart(c, b)
  {
    var x := Max(c.start, b.start);
    assert x in Bytes(c) <==> x < c.end;
    assert x in Bytes(b) <==> x < b.end;
    assert x in Bytes(c) ==> x in LiveBytes(h.live);
  }

  lemma AdoptableIsApart(h: Heap, b: Range)
    requires HeapOk(h) && Adoptable(h, b) && b.start < b.end
    ensures forall r :: r in h.ranges ==> Apart(r, b)
    ensures forall c :: c in h.live && c != b ==> Apart(c, b)
  {
    if b !in h.live {
      forall r | r in h.ranges ensures Apart(r, b) { FreshIsApartFromRange(h, b, r); }
      forall c | c in h.live ensures Apart(c, b) { FreshIsApartFromLive(h, b, c); }
    }
  }

  lemma InsertedRanges(ranges: seq<Range>, b: Range)
    ensures forall r :: r in Insert(ranges, b) ==>
              || r in ranges
              || r == b
              || (exists q :: q in ranges && q.start == b.end && r == Range(b.start, q.end))
              || (exists q :: q in ranges && q.end == b.start && r == Range(q.start, b.end))
  {
  }

  // The bytes of the other live blocks are the live bytes less the block's.
  lemma LiveWithout(live: set<Range>, b: Range)
    requires forall c :: c in live && c != b ==> Apart(c, b)
    ensures LiveBytes(live - {b}) == LiveBytes(live) - Bytes(b)
    ensures b in live ==> Bytes(b) <= LiveBytes(live)
  {
  }

  lemma InsertedIsApart(ranges: seq<Range>, b: Range, c: Range)
    requires c.start < c.end && Apart(b, c)
    requires forall r :: r in ranges ==> Apart(r, c)
    ensures forall r :: r in Insert(ranges, b) ==> Apart(r, c)
  {
    InsertedRanges(ranges, b);
  }

  lemma InsertedIsHinted(h: Heap, b: Range)
    requires HintsOk(h) && 1 <= b.start < b.end <= ISIZE_MAX
    ensures HintsOk(AdoptHeap(h, b))
  {
  }

  lemma InsertedIsAnchored(h: Heap, b: Range)
    requires AnchorsOk(h) && 1 <= b.start < b.end
    ensures AnchorsOk(AdoptHeap(h, b))
  {
  }

  lemma AdoptKeepsLive(h: Heap, b: Range)
    requires HeapOk(h) && Adoptable(h, b) && b.start < b.end
    ensures LiveOk(AdoptHeap(h, b))
  {
    AdoptableIsApart(h, b);
    forall r, c | r in Insert(h.ranges, b) && c in h.live - {b} ensures Apart(r, c) {
      InsertedIsApart(h.ranges, b, c);
    }
  }

  lemma AdoptKeepsBytes(h: Heap, b: Range)
    requires HeapOk(h) && Adoptable(h, b) && b.start < b.end
    ensures BytesOk(AdoptHeap(h, b))
  {
    AdoptableIsApart(h, b);
    InsertBytes(h.ranges, b);
    LiveWithout(h.live, b);
    assert b !in h.live ==> Bytes(b) !! LiveBytes(h.live);
  }

  /** Adopting fresh memory or taking a live block back keeps every part of the invariant. */
  lemma AdoptKeepsHeapOk(h: Heap, b: Range)
    requires HeapOk(h) && Adoptable(h, b)
    ensures HeapOk(AdoptHeap(h, b))
  {
    if b.start < b.end {
      AdoptableIsApart(h, b);
      InsertKeepsOrder(h.ranges, b);
      InsertedIsHinted(h, b);
      InsertedIsAnchored(h, b);
      AdoptKeepsLive(h, b);
      AdoptKeepsBytes(h, b);
    }
  }

  // ----- allocating

  datatype Plan = Found(spot: Spot) | NoFit | Overflow

  // `alloc_layout_between`: the rounded bounds, the early rejections, then first fit.
  function PlanBetween(h: Heap, l: Layout, minAddr: nat, maxAddr: nat): Plan
    requires LayoutOk(l)
    requires forall k :: 0 <= k < |h.ranges| ==> h.ranges[k].end >= 0
  {
    var lo := RoundUp(minAddr, l.align);
    var hi := RoundDown(maxAddr, l.align);
    if lo > USIZE_MAX then Overflow
    else if lo > hi || h.maxAddr <= lo || WrappingDec(h.minAddr) >= hi then NoFit
    else
      match FirstFit(h.ranges, l.size, l.align, lo, hi)
      case Some(spot) => Found(spot)
      case None => NoFit
  }

  function BlockAt(l: Layout, spot: Spot): Range {
    Range(spot.addr, spot.addr + l.size)
  }

  ghost function Take(h: Heap, l: Layout, spot: Spot): Heap
    requires SpotOk(h.ranges, l.size, spot)
  {
    h.(ranges := Carve(h.ranges, l.size, spot),
       live := if l.size > 0 then h.live + {BlockAt(l, spot)} else h.live,
       forgotten := h.forgotten + Bytes(Fragment(h.ranges, l.size, spot)))
  }

  lemma PlanFindsASpot(h: Heap, l: Layout, minAddr: nat, maxAddr: nat)
    requires LayoutOk(l) && Ordered(h.ranges)
    ensures
      var plan := PlanBetween(h, l, minAddr, maxAddr);
      plan.Found? ==>
        && SpotOk(h.ranges, l.size, plan.spot)
        && Fits(h.ranges[plan.spot.index], plan.spot.addr, l.size, l.align,
                RoundUp(minAddr, l.align), RoundDown(maxAddr, l.align))
  {
    ScanIsExact(h.ranges, SkipIndex(h.ranges, RoundUp(minAddr, l.align)), l.size, l.align,
                RoundUp(minAddr, l.align), RoundDown(maxAddr, l.align));
  }

  ghost function AllocHeap(h: Heap, l: Layout, minAddr: nat, maxAddr: nat): Heap
    requires LayoutOk(l) && Ordered(h.ranges)
  {
    PlanFindsASpot(h, l, minAddr, maxAddr);
    match PlanBetween(h, l, minAddr, maxAddr)
    case Found(spot) => Take(h, l, spot)
    case _ => h
  }

  lemma CarvedRanges(h: Heap, l: Layout, spot: Spot)
    requires SpotOk(h.ranges, l.size, spot)
    ensures
      var r := h.ranges[spot.index];
      forall p :: p in Carve(h.ranges, l.size, spot) ==>
        || p in h.ranges
        || (p.start == r.start && p.end <= spot.addr)
        || (p.start == spot.addr + l.size && p.end == r.end
            && (p.start < p.end || l.size > 0 || p.start == r.start))
  {
  }

  lemma LiveWith(live: set<Range>, b: Range)
    ensures LiveBytes(live + {b}) == LiveBytes(live) + Bytes(b)
  {
  }

  lemma TakeKeepsBytes(h: Heap, l: Layout, spot: Spot)
    requires HeapOk(h) && SpotOk(h.ranges, l.size, spot)
    ensures BytesOk(Take(h, l, spot))
  {
    var h' := Take(h, l, spot);
    CarveBytes(h.ranges, l.size, spot);
    LiveWith(h.live, BlockAt(l, spot));
    assert LiveBytes(h'.live) == LiveBytes(h.live) + Bytes(BlockAt(l, spot));
    BytesMove(FreeBytes(h.ranges), LiveBytes(h.live), h.forgotten, FreeBytes(h'.ranges),
              Bytes(BlockAt(l, spot)), Bytes(Fragment(h.ranges, l.size, spot)));
  }

  // Bytes only change hands: from free to owned or lost.
  lemma BytesMove(free: set<int>, live: set<int>, lost: set<int>, free': set<int>, own: set<int>, frag: set<int>)
    requires free !! live && free !! lost && live !! lost
    requires free == free' + own + frag && own !! frag && own !! free' && frag !! free'
    ensures free + live + lost == free' + (live + own) + (lost + frag)
    ensures free' !! (live + own) && free' !! (lost + frag) && (live + own) !! (lost + frag)
  {
  }

  /** Carving a block, even an empty one, keeps every part of the invariant. */
  lemma TakeKeepsHeapOk(h: Heap, l: Layout, spot: Spot)
    requires HeapOk(h) && SpotOk(h.ranges, l.size, spot)
    ensures HeapOk(Take(h, l, spot))
  {
    var h' := Take(h, l, spot);
    CarveKeepsOrder(h.ranges, l.size, spot);
    CarvedRanges(h, l, spot);
    TakeKeepsBytes(h, l, spot);
    TakenIsApart(h, l, spot);
    TakeKeepsAnchors(h, l, spot);
  }

  lemma TakeKeepsAnchors(h: Heap, l: Layout, spot: Spot)
    requires HeapOk(h) && SpotOk(h.ranges, l.size, spot)
    ensures forall p :: p in Carve(h.ranges, l.size, spot) ==> p.start in h.adopted || p.start - 1 in h.adopted
  {
    var r := h.ranges[spot.index];
    assert r in h.ranges;
    CarvedRanges(h, l, spot);
    RangeBytesAreFree(h.ranges, r);
    forall p | p in Carve(h.ranges, l.size, spot) ensures p.start in h.adopted || p.start - 1 in h.adopted {
      if p.start == spot.addr + l.size && p.end == r.end {
        if p.start < p.end { assert p.start in Bytes(r); }
        else if l.size > 0 { assert p.start - 1 in Bytes(r); }
      }
    }
  }

  lemma TakenIsApart(h: Heap, l: Layout, spot: Spot)
    requires HeapOk(h) && SpotOk(h.ranges, l.size, spot)
    ensures LiveOk(Take(h, l, spot))
    ensures HintsOk(Take(h, l, spot))
  {
    var h' := Take(h, l, spot);
    var r := h.ranges[spot.index];
    var block := BlockAt(l, spot);
    CarvedRanges(h, l, spot);
    assert r in h.ranges;
    forall p | p in h'.ranges ensures Apart(p, block) || l.size == 0 {
      CarveLeavesBlockOut(h.ranges, l, spot, p);
    }
    forall c | c in h.live ensures Apart(c, block) {
      assert Apart(r, c);
    }
    forall p, c | p in h'.ranges && c in h.live ensures Apart(p, c) {
      assert Apart(r, c);
    }
  }

  lemma AllocKeepsHeapOk(h: Heap, l: Layout, lo: nat, hi: nat)
    requires HeapOk(h) && LayoutOk(l)
    ensures HeapOk(AllocHeap(h, l, lo, hi))
  {
    PlanFindsASpot(h, l, lo, hi);
    var plan := PlanBetween(h, l, lo, hi);
    if plan.Found? {
      TakeKeepsHeapOk(h, l, plan.spot);
    }
  }

  lemma CarveLeavesBlockOut(ranges: seq<Range>, l: Layout, spot: Spot, p: Range)
    requires Ordered(ranges) && SpotOk(ranges, l.size, spot)
    requires p in Carve(ranges, l.size, spot)
    ensures Apart(p, BlockAt(l, spot))
  {
  }

  // ----- runs

  datatype Op =
    | Adopt(block: Range)
    | Reclaim(block: Range)
    | Cut(block: Range, at: int)          // a client splits a block it owns in two
    | Allocate(layout: Layout, lo: nat, hi: nat)

  ghost predicate Allowed(h: Heap, op: Op) {
    match op
    case Adopt(b) => 1 <= b.start <= b.end <= ISIZE_MAX && Bytes(b) !! h.adopted
    case Reclaim(b) => b in h.live
    case Cut(b, at) => b in h.live && b.start < at < b.end
    case Allocate(l, _, _) => LayoutOk(l)
  }

  ghost function CutHeap(h: Heap, b: Range, at: int): Heap {
    h.(live := h.live - {b} + {Range(b.start, at), Range(at, b.end)})
  }

  ghost function Step(h: Heap, op: Op): Heap {
    if !Ordered(h.ranges) || !Allowed(h, op) then h else
      match op
      case Adopt(b) => AdoptHeap(h, b)
      case Reclaim(b) => if 0 <= b.start <= b.end then AdoptHeap(h, b) else h
      case Cut(b, at) => CutHeap(h, b, at)
      case Allocate(l, lo, hi) => AllocHeap(h, l, lo, hi)
  }

  lemma CutKeepsBytes(live: set<Range>, b: Range, at: int)
    requires b in live && b.start < at < b.end
    requires forall c :: c in live && c != b ==> Apart(c, b)
    ensures LiveBytes(live - {b} + {Range(b.start, at), Range(at, b.end)}) == LiveBytes(live)
  {
    var left, right := Range(b.start, at), Range(at, b.end);
    LiveWithout(live, b);
    LiveWith(live - {b}, left);
    LiveWith(live - {b} + {left}, right);
    assert live - {b} + {left, right} == live - {b} + {left} + {right};
    assert Bytes(b) == Bytes(left) + Bytes(right);
  }

  lemma CutKeepsHeapOk(h: Heap, b: Range, at: int)
    requires HeapOk(h) && b in h.live && b.start < at < b.end
    ensures HeapOk(CutHeap(h, b, at))
  {
    CutKeepsBytes(h.live, b, at);
    var h' := CutHeap(h, b, at);
    forall r, c | r in h.ranges && c in h'.live ensures Apart(r, c) {
      assert Apart(r, b);
    }
    forall c, d | c in h'.live && d in h'.live && c != d ensures Apart(c, d) {
      if c in h.live { assert c == b || Apart(c, b); }
      if d in h.live { assert d == b || Apart(d, b); }
    }
  }

  lemma LiveBlocksAreInMemory(h: Heap, b: Range)
    requires HeapOk(h) && b in h.live
    requires forall x :: x in h.adopted ==> x < ISIZE_MAX
    ensures Adoptable(h, b)
  {
    assert b.end - 1 in Bytes(b);
    assert b.end - 1 in LiveBytes(h.live);
  }

  ghost predicate RunOk(h: Heap, steps: nat) {
    HeapOk(h) && ForgetsLittle(h, steps)
  }

  ghost predicate ForgetsLittle(h: Heap, steps: nat) {
    && (forall x :: x in h.adopted ==> x < ISIZE_MAX)
    && |h.forgotten| <= (MIN_RANGE_LEN - 1) * steps
  }

  lemma UnionCount(a: set<int>, b: set<int>, k: nat)
    requires |b| <= k
    ensures |a + b| <= |a| + k
  {
  }

  lemma AdoptKeepsRunOk(h: Heap, b: Range, steps: nat)
    requires RunOk(h, steps) && Adoptable(h, b)
    ensures RunOk(AdoptHeap(h, b), steps + 1)
  {
    AdoptKeepsHeapOk(h, b);
    AdoptForgetsLittle(h, b, steps);
  }

  lemma StepsAddUp(steps: nat)
    ensures (MIN_RANGE_LEN - 1) * (steps + 1) == (MIN_RANGE_LEN - 1) * steps + (MIN_RANGE_LEN - 1)
  {
  }

  lemma AdoptForgetsLittle(h: Heap, b: Range, steps: nat)
    requires ForgetsLittle(h, steps) && 0 <= b.start <= b.end <= ISIZE_MAX
    ensures ForgetsLittle(AdoptHeap(h, b), steps + 1)
  {
    StepsAddUp(steps);
    if Forgets(h.ranges, b) {
      BytesCount(b);
      UnionCount(h.forgotten, Bytes(b), MIN_RANGE_LEN - 1);
    }
  }

  lemma AllocKeepsRunOk(h: Heap, l: Layout, lo: nat, hi: nat, steps: nat)
    requires RunOk(h, steps) && LayoutOk(l)
    ensures RunOk(AllocHeap(h, l, lo, hi), steps + if PlanBetween(h, l, lo, hi).Found? then 1 else 0)
  {
    AllocKeepsHeapOk(h, l, lo, hi);
    PlanFindsASpot(h, l, lo, hi);
    var plan := PlanBetween(h, l, lo, hi);
    if plan.Found? {
      StepsAddUp(steps);
      BytesCount(Fragment(h.ranges, l.size, plan.spot));
      UnionCount(h.forgotten, Bytes(Fragment(h.ranges, l.size, plan.spot)), MIN_RANGE_LEN - 1);
    }
  }

  // Only adoptions, reclaims and successful allocations may forget bytes.
  ghost function Forgetful(h: Heap, op: Op): nat
    requires Ordered(h.ranges)
  {
    match op
    case Cut(_, _) => 0
    case Allocate(l, lo, hi) => if LayoutOk(l) && PlanBetween(h, l, lo, hi).Found? then 1 else 0
    case _ => if Allowed(h, op) then 1 else 0
  }

  lemma StepKeepsRunOk(h: Heap, op: Op, steps: nat)
    requires RunOk(h, steps)
    ensures RunOk(Step(h, op), steps + Forgetful(h, op))
  {
    if Allowed(h, op) {
      match op {
        case Adopt(b) => AdoptKeepsRunOk(h, b, steps);
        case Reclaim(b) =>
          LiveBlocksAreInMemory(h, b);
          AdoptKeepsRunOk(h, b, steps);
        case Cut(b, at) => CutKeepsHeapOk(h, b, at);
        case Allocate(l, lo, hi) => AllocKeepsRunOk(h, l, lo, hi, steps);
      }
    }
  }

  ghost function Run(h: Heap, ops: seq<Op>): Heap
    decreases |ops|
  {
    if ops == [] then h else Run(Step(h, ops[0]), ops[1..])
  }

  // How many steps of the run were of that kind.
  ghost function ForgetfulSteps(h: Heap, ops: seq<Op>): nat
    decreases |ops|
  {
    if ops == [] then 0
    else (if Ordered(h.ranges) then Forgetful(h, ops[0]) else 0) + ForgetfulSteps(Step(h, ops[0]), ops[1..])
  }

  lemma {:induction false} RunKeepsOk(h: Heap, ops: seq<Op>, steps: nat)
    requires RunOk(h, steps)
    ensures RunOk(Run(h, ops), steps + ForgetfulSteps(h, ops))
    decreases |ops|
  {
    if ops != [] {
      StepKeepsRunOk(h, ops[0], steps);
      RunKeepsOk(Step(h, ops[0]), ops[1..], steps + Forgetful(h, ops[0]));
    }
  }

  lemma EmptyHeapIsOk()
    ensures RunOk(EmptyHeap(), 0)
  {
  }

  ghost function After(ops: seq<Op>): Heap {
    Run(EmptyHeap(), ops)
  }

  /** Over every run from the zeroed allocator: the list stays sorted with its empty
      ranges, live blocks and free ranges never overlap, adopted bytes are exactly the
      free, live and forgotten ones, and fewer than MIN_RANGE_LEN are forgotten per
      adoption, reclaim or successful allocation. */
  lemma EveryRunKeepsTheHeap(ops: seq<Op>)
    ensures HeapOk(After(ops))
    ensures |After(ops).forgotten| <= 7 * ForgetfulSteps(EmptyHeap(), ops)
  {
    EmptyHeapIsOk();
    RunKeepsOk(EmptyHeap(), ops, 0);
  }

  ghost predicate AllocationIsOwn(h: Heap, l: Layout, lo: nat, hi: nat)
    requires LayoutOk(l)
  {
    Ordered(h.ranges) &&
    match PlanBetween(h, l, lo, hi)
    case Found(spot) =>
      var own := Bytes(BlockAt(l, spot));
      && own <= h.adopted
      && own !! LiveBytes(h.live) && own !! h.forgotten
      && own !! FreeBytes(AllocHeap(h, l, lo, hi).ranges)
    case _ => true
  }

  /** No byte is handed out twice: after any run, a block just allocated consists of
      bytes that were free, so no live block and no forgotten byte shares them. */
  lemma AllocationsNeverOverlap(ops: seq<Op>, l: Layout, lo: nat, hi: nat)
    requires LayoutOk(l)
    ensures AllocationIsOwn(After(ops), l, lo, hi)
  {
    EveryRunKeepsTheHeap(ops);
    AllocatedBytesWereFree(After(ops), l, lo, hi);
  }

  lemma AllocatedBytesWereFree(h: Heap, l: Layout, lo: nat, hi: nat)
    requires Ordered(h.ranges) && BytesOk(h) && LayoutOk(l)
    ensures AllocationIsOwn(h, l, lo, hi)
  {
    PlanFindsASpot(h, l, lo, hi);
    if PlanBetween(h, l, lo, hi).Found? {
      CarveBytes(h.ranges, l.size, PlanBetween(h, l, lo, hi).spot);
    }
  }

  // ----- allocate, then give back

  lemma BlockRejoins(ranges: seq<Range>, l: Layout, spot: Spot)
    requires Ordered(ranges) && SpotOk(ranges, l.size, spot) && l.size > 0
    ensures !Forgets(Carve(ranges, l.size, spot), BlockAt(l, spot))
  {
  }

  /** Taking a block at the start of a range and giving it back restores the list itself; at
      the end of a range, too, unless the next range begins there, which then grows down. A
      block from inside a range joins what is left above it. */
  lemma BlockRestoresList(ranges: seq<Range>, l: Layout, spot: Spot)
    requires Ordered(ranges) && SpotOk(ranges, l.size, spot) && l.size > 0
    ensures
      var (i, r, list) := (spot.index, ranges[spot.index], Carve(ranges, l.size, spot));
      var back := Insert(list, BlockAt(l, spot));
      match spot.how
      case AtStart => back == ranges
      case AtEnd =>
        if i + 1 < |ranges| && ranges[i + 1].start == r.end then back == list[i + 1 := Range(spot.addr, ranges[i + 1].end)]
        else back == ranges
      case Split =>
        back == ranges[..i] + (if spot.addr - r.start >= 8 then [Range(r.start, spot.addr)] else [])
                + [Range(spot.addr, r.end)] + ranges[i + 1..]
  {
    match spot.how {
      case AtStart => StartGrowsBack(ranges, l, spot);
      case AtEnd => EndGrowsBack(ranges, l, spot);
      case Split => UpperPieceGrowsDown(ranges, l, spot);
    }
  }

  lemma StartGrowsBack(ranges: seq<Range>, l: Layout, spot: Spot)
    requires Ordered(ranges) && SpotOk(ranges, l.size, spot) && l.size > 0 && spot.how.AtStart?
    ensures Insert(Carve(ranges, l.size, spot), BlockAt(l, spot)) == ranges
  {
    var (i, block, list) := (spot.index, BlockAt(l, spot), Carve(ranges, l.size, spot));
    CarveKeepsOrder(ranges, l.size, spot);
    assert list == ranges[i := Range(block.end, ranges[i].end)];
    FirstAtOrAbove(list, block.end, i);
  }

  lemma EndGrowsBack(ranges: seq<Range>, l: Layout, spot: Spot)
    requires Ordered(ranges) && SpotOk(ranges, l.size, spot) && l.size > 0 && spot.how.AtEnd?
    ensures
      var (i, list) := (spot.index, Carve(ranges, l.size, spot));
      Insert(list, BlockAt(l, spot)) ==
      if i + 1 < |ranges| && ranges[i + 1].start == ranges[i].end then list[i + 1 := Range(spot.addr, ranges[i + 1].end)]
      else ranges
  {
    var (i, block, list) := (spot.index, BlockAt(l, spot), Carve(ranges, l.size, spot));
    CarveKeepsOrder(ranges, l.size, spot);
    assert list == ranges[i := Range(ranges[i].start, spot.addr)];
    FirstAtOrAbove(list, block.end, i + 1);
  }

  lemma UpperPieceGrowsDown(ranges: seq<Range>, l: Layout, spot: Spot)
    requires Ordered(ranges) && SpotOk(ranges, l.size, spot) && l.size > 0 && spot.how.Split?
    ensures
      var (i, r) := (spot.index, ranges[spot.index]);
      Insert(Carve(ranges, l.size, spot), BlockAt(l, spot)) ==
      ranges[..i] + (if spot.addr - r.start >= 8 then [Range(r.start, spot.addr)] else []) + [Range(spot.addr, r.end)] + ranges[i + 1..]
  {
    var (i, r) := (spot.index, ranges[spot.index]);
    var lower := ranges[..i] + if spot.addr - r.start >= 8 then [Range(r.start, spot.addr)] else [];
    CarveKeepsOrder(ranges, l.size, spot);
    CarvedInThree(ranges, l, spot);
    if |lower| > 0 { LowerPieceIsBelow(ranges, spot, lower); }
    InsertBelowMiddle(lower, Range(spot.addr + l.size, r.end), ranges[i + 1..], BlockAt(l, spot));
  }

  lemma InsertBelowMiddle(lower: seq<Range>, x: Range, upper: seq<Range>, b: Range)
    requires Ordered(lower + [x] + upper) && b.end == x.start && b.start < b.end
    requires |lower| > 0 ==> lower[|lower| - 1].start < b.end
    ensures Insert(lower + [x] + upper, b) == lower + [Range(b.start, x.end)] + upper
  {
    FirstAtOrAbove(lower + [x] + upper, b.end, |lower|);
    ReplaceMiddle(lower, x, Range(b.start, x.end), upper);
  }

  lemma CarvedInThree(ranges: seq<Range>, l: Layout, spot: Spot)
    requires SpotOk(ranges, l.size, spot) && spot.how.Split?
    ensures
      var (i, r) := (spot.index, ranges[spot.index]);
      Carve(ranges, l.size, spot) ==
      ranges[..i] + (if spot.addr - r.start >= 8 then [Range(r.start, spot.addr)] else [])
      + [Range(spot.addr + l.size, r.end)] + ranges[i + 1..]
  {
  }

  lemma LowerPieceIsBelow(ranges: seq<Range>, spot: Spot, lower: seq<Range>)
    requires Ordered(ranges) && spot.index < |ranges| && |lower| > 0 && ranges[spot.index].start < spot.addr
    requires lower == ranges[..spot.index] || lower == ranges[..spot.index] + [Range(ranges[spot.index].start, spot.addr)]
    ensures lower[|lower| - 1].start < spot.addr
  {
    if lower == ranges[..spot.index] {
      assert ranges[spot.index - 1].end <= ranges[spot.index].start;
    }
  }

  lemma ReplaceMiddle(lower: seq<Range>, x: Range, y: Range, upper: seq<Range>)
    ensures (lower + [x] + upper)[|lower|] == x && (lower + [x] + upper)[|lower| := y] == lower + [y] + upper
  {
  }

  // Where the search for the first range at or above an address ends.
  lemma FirstAtOrAbove(list: seq<Range>, end: int, k: nat)
    requires Ordered(list)
    requires k <= |list| && (k > 0 ==> list[k - 1].start < end) && (k < |list| ==> end <= list[k].start)
    ensures PrefixLength(list, (r: Range) => r.start < end) == k
  {
    PrefixIsUnique(list, (r: Range) => r.start < end, k);
  }

  lemma TakenBlockIsNew(h: Heap, l: Layout, spot: Spot)
    requires HeapOk(h) && l.size > 0 && SpotOk(h.ranges, l.size, spot)
    ensures BlockAt(l, spot) !in h.live
    ensures Bytes(BlockAt(l, spot)) <= h.adopted
  {
    CarveBytes(h.ranges, l.size, spot);
    assert h.ranges[spot.index] in h.ranges;
  }

  lemma BytesReturn(free: set<int>, free': set<int>, own: set<int>, frag: set<int>)
    requires free == free' + own + frag && own !! frag && frag !! free'
    ensures free' + own == free - frag
  {
  }

  lemma BlockReturns(ranges: seq<Range>, l: Layout, spot: Spot)
    requires Ordered(ranges) && SpotOk(ranges, l.size, spot) && l.size > 0
    ensures FreeBytes(Insert(Carve(ranges, l.size, spot), BlockAt(l, spot)))
            == FreeBytes(ranges) - Bytes(Fragment(ranges, l.size, spot))
  {
    var block := BlockAt(l, spot);
    var list := Carve(ranges, l.size, spot);
    CarveBytes(ranges, l.size, spot);
    BlockRejoins(ranges, l, spot);
    CarveKeepsOrder(ranges, l.size, spot);
    forall r | r in list ensures Apart(r, block) {
      CarveLeavesBlockOut(ranges, l, spot, r);
    }
    InsertBytes(list, block);
    BytesReturn(FreeBytes(ranges), FreeBytes(list), Bytes(block), Bytes(Fragment(ranges, l.size, spot)));
  }

  /** A non-empty block given back at once is never dropped: the free bytes, the live
      blocks and the forgotten bytes are as before, except for the split fragment. */
  lemma ReclaimUndoesAllocate(h: Heap, l: Layout, lo: nat, hi: nat, spot: Spot)
    requires HeapOk(h) && LayoutOk(l) && l.size > 0 && PlanBetween(h, l, lo, hi) == Found(spot)
    ensures SpotOk(h.ranges, l.size, spot)
    ensures
      var lost := Bytes(Fragment(h.ranges, l.size, spot));
      var back := AdoptHeap(AllocHeap(h, l, lo, hi), BlockAt(l, spot));
      && FreeBytes(back.ranges) == FreeBytes(h.ranges) - lost
      && back.forgotten == h.forgotten + lost
      && back.live == h.live && back.adopted == h.adopted
      && |lost| < MIN_RANGE_LEN
  {
    PlanFindsASpot(h, l, lo, hi);
    BlockReturns(h.ranges, l, spot);
    BytesCount(Fragment(h.ranges, l.size, spot));
    ReclaimUndoesTake(h, l, spot);
  }

  lemma ReclaimUndoesTake(h: Heap, l: Layout, spot: Spot)
    requires HeapOk(h) && l.size > 0 && SpotOk(h.ranges, l.size, spot)
    ensures
      var back := AdoptHeap(Take(h, l, spot), BlockAt(l, spot));
      && back.ranges == Insert(Carve(h.ranges, l.size, spot), BlockAt(l, spot))
      && back.forgotten == h.forgotten + Bytes(Fragment(h.ranges, l.size, spot))
      && back.live == h.live && back.adopted == h.adopted
  {
    BlockRejoins(h.ranges, l, spot);
    TakenBlockIsNew(h, l, spot);
    var block := BlockAt(l, spot);
    assert h.live + {block} - {block} == h.live;
    assert h.adopted + Bytes(block) == h.adopted;
  }
}
