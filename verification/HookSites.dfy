/** Choosing the instructions a hook displaces, and where their copies may live so that
    every relative address stays within reach. A decoded instruction is its length and
    the few facts the analysis asks for; decoding itself is not part of this model. */
module HookSites {
  import opened Results
  import opened Rounding
  import opened Ranges
  import opened RangeHeap
  import opened RangeAllocator
  import opened ShortJump

  const RELOC_BUF_LEN: nat := 1024

  datatype Insn = Insn(
    len: nat,
    invalid: bool,
    branches: bool,           // unconditional: jump, indirect jump, return or interrupt
    padding: bool,            // int1, int3 or ud2
    relAddr: Option<Usize>)   // address of an IP-relative memory operand

  datatype Site = Site(
    count: nat,               // instructions kept, before the jump back
    willBranch: bool,
    trampolineTarget: int,
    minRel: int,
    maxRel: int)

  datatype Analysis = Accepted(site: Site) | TooShort | Undecodable

  function Lens(insns: seq<Insn>): nat {
    if insns == [] then 0 else Lens(insns[..|insns| - 1]) + insns[|insns| - 1].len
  }

  lemma LensStep(insns: seq<Insn>, n: nat)
    requires n < |insns|
    ensures Lens(insns[..n + 1]) == Lens(insns[..n]) + insns[n].len
  {
    assert insns[..n + 1][..n] == insns[..n];
  }

  // The first `n` instructions are what the analysis keeps: up to the jump's length or
  // the first unconditional branch, whichever comes first.
  ghost predicate IsKept(insns: seq<Insn>, n: nat) {
    && 1 <= n <= |insns|
    && (forall i :: 0 <= i < n ==> !insns[i].invalid)
    && (forall i :: 0 <= i < n - 1 ==> !insns[i].branches)
    && Lens(insns[..n - 1]) < JMP_LEN
    && (Lens(insns[..n]) < JMP_LEN && !insns[n - 1].branches ==> n == |insns| || insns[n].invalid)
  }

  // End of the padding behind the kept instructions, no further than needed.
  function PaddedEnd(insns: seq<Insn>, n: nat): (end: nat)
    requires n <= |insns|
    ensures n <= end <= |insns|
    ensures forall i :: n <= i < end ==> insns[i].padding && !insns[i].invalid
    decreases |insns| - n
  {
    if n == |insns| || insns[n].invalid || !insns[n].padding || Lens(insns[..n]) >= JMP_LEN then n
    else PaddedEnd(insns, n + 1)
  }

  // Byte `x` of the site belongs to instruction `i`.
  predicate HoldsByte(insns: seq<Insn>, i: nat, x: int)
    requires i < |insns|
  {
    Lens(insns[..i]) <= x < Lens(insns[..i]) + insns[i].len
  }

  // Each of the overwritten bytes belongs to a kept instruction or to padding.
  ghost predicate OverwritesOnlyPadding(insns: seq<Insn>, site: Site) {
    forall i, x :: 0 <= i < |insns| && 0 <= x < JMP_LEN && HoldsByte(insns, i, x)
      ==> i < site.count || (insns[i].padding && !insns[i].invalid)
  }

  // The instruction in front of which the padding stops is long enough by itself.
  predicate CodeBehindReaches(insns: seq<Insn>, n: nat)
    requires n <= |insns|
  {
    var end := PaddedEnd(insns, n);
    && Lens(insns[..end]) < JMP_LEN
    && end < |insns| && !insns[end].invalid && Lens(insns[..end + 1]) >= JMP_LEN
  }

  predicate ReachesJump(insns: seq<Insn>, n: nat)
    requires 1 <= n <= |insns|
  {
    if insns[n - 1].branches then Lens(insns[..PaddedEnd(insns, n)]) >= JMP_LEN || CodeBehindReaches(insns, n)
    else Lens(insns[..n]) >= JMP_LEN
  }

  ghost predicate Recorded(target: int, insns: seq<Insn>, site: Site, addr: int)
    requires site.count <= |insns|
  {
    || (exists i :: 0 <= i < site.count && insns[i].relAddr == Some(addr))
    || (!site.willBranch && addr == target + Lens(insns[..site.count]))
  }

  // The recorded bounds are the extremes of the recorded addresses.
  ghost predicate BoundsOk(target: int, insns: seq<Insn>, site: Site)
    requires site.count <= |insns|
  {
    && (forall a :: Recorded(target, insns, site, a) ==> site.minRel <= a <= site.maxRel)
    && (site.minRel <= site.maxRel ==> Recorded(target, insns, site, site.minRel) && Recorded(target, insns, site, site.maxRel))
    && (site.minRel > site.maxRel ==> site.minRel == USIZE_MAX && site.maxRel == 0)
  }

  // The running bounds over the first `n` instructions.
  ghost predicate RelBoundsOk(insns: seq<Insn>, n: nat, min: int, max: int)
    requires n <= |insns|
  {
    && (forall i :: 0 <= i < n && insns[i].relAddr.Some? ==> min <= insns[i].relAddr.value <= max)
    && ((min == USIZE_MAX && max == 0 && forall i :: 0 <= i < n ==> insns[i].relAddr.None?)
        || ((exists i :: 0 <= i < n && insns[i].relAddr == Some(min)) && (exists i :: 0 <= i < n && insns[i].relAddr == Some(max))))
  }

  // The loop's variables: instructions passed, bytes covered, instructions kept.
  datatype Progress = Progress(i: nat, minLen: nat, minCount: nat, willBranch: bool, minRel: int, maxRel: int, stopped: bool)

  predicate GoesOn(insns: seq<Insn>, p: Progress) {
    p.i < |insns| && !insns[p.i].invalid && p.minLen < JMP_LEN && !p.stopped
  }

  ghost predicate KeptSoFar(insns: seq<Insn>, p: Progress) {
    && p.minCount <= p.i <= |insns| && (p.i > 0 ==> p.minCount > 0)
    && p.minLen == Lens(insns[..p.i])
    && (forall k :: 0 <= k < p.i ==> !insns[k].invalid)
    && (forall k :: 0 <= k < p.minCount - 1 ==> !insns[k].branches)
    && (p.minCount > 0 ==> Lens(insns[..p.minCount - 1]) < JMP_LEN && p.willBranch == insns[p.minCount - 1].branches)
    && (if p.willBranch then p.minCount > 0 else p.i == p.minCount && !p.stopped)
    && RelBoundsOk(insns, p.minCount, p.minRel, p.maxRel)
  }

  ghost predicate PaddedSoFar(insns: seq<Insn>, p: Progress)
    requires p.minCount <= p.i <= |insns|
  {
    p.willBranch ==>
      && p.i > 0
      && (!p.stopped ==> PaddedEnd(insns, p.minCount) == PaddedEnd(insns, p.i))
      && (p.stopped ==> PaddedEnd(insns, p.minCount) == p.i - 1 && Lens(insns[..p.i - 1]) < JMP_LEN)
  }

  ghost predicate ScanOk(insns: seq<Insn>, p: Progress) {
    KeptSoFar(insns, p) && PaddedSoFar(insns, p)
  }

  // One turn of the loop.
  function Turn(insns: seq<Insn>, p: Progress): Progress
    requires p.i < |insns|
  {
    var insn := insns[p.i];
    var q := p.(i := p.i + 1, minLen := p.minLen + insn.len);
    if p.willBranch then q.(stopped := !insn.padding)
    else
      q.(minCount := p.minCount + 1, willBranch := insn.branches,
         minRel := if insn.relAddr.Some? then Min(p.minRel, insn.relAddr.value) else p.minRel,
         maxRel := if insn.relAddr.Some? then Max(p.maxRel, insn.relAddr.value) else p.maxRel)
  }

  lemma TurnKeepsRelBounds(insns: seq<Insn>, p: Progress)
    requires p.i < |insns| && p.minCount == p.i && !p.willBranch && RelBoundsOk(insns, p.minCount, p.minRel, p.maxRel)
    ensures RelBoundsOk(insns, Turn(insns, p).minCount, Turn(insns, p).minRel, Turn(insns, p).maxRel)
  {
  }

  lemma TurnKeepsKept(insns: seq<Insn>, p: Progress)
    requires KeptSoFar(insns, p) && GoesOn(insns, p)
    ensures KeptSoFar(insns, Turn(insns, p))
  {
    LensStep(insns, p.i);
    if !p.willBranch {
      TurnKeepsRelBounds(insns, p);
    }
  }

  lemma TurnKeepsScan(insns: seq<Insn>, p: Progress)
    requires ScanOk(insns, p) && GoesOn(insns, p)
    ensures ScanOk(insns, Turn(insns, p))
  {
    TurnKeepsKept(insns, p);
  }

  const AT_START := Progress(0, 0, 0, false, USIZE_MAX, 0, false)

  // Where the loop stops.
  function ScanFrom(insns: seq<Insn>, p: Progress): Progress
    decreases |insns| - p.i
  {
    if GoesOn(insns, p) then ScanFrom(insns, Turn(insns, p)) else p
  }

  lemma {:induction false} ScanFromIsOk(insns: seq<Insn>, p: Progress)
    requires ScanOk(insns, p)
    ensures ScanOk(insns, ScanFrom(insns, p)) && !GoesOn(insns, ScanFrom(insns, p))
    ensures ScanFrom(insns, p).i >= p.i
    decreases |insns| - p.i
  {
    if GoesOn(insns, p) {
      TurnKeepsScan(insns, p);
      ScanFromIsOk(insns, Turn(insns, p));
    }
  }

  lemma ScanStops(insns: seq<Insn>)
    requires insns != [] && !insns[0].invalid
    ensures ScanOk(insns, ScanFrom(insns, AT_START)) && !GoesOn(insns, ScanFrom(insns, AT_START))
    ensures ScanFrom(insns, AT_START).i > 0
  {
    TurnKeepsScan(insns, AT_START);
    ScanFromIsOk(insns, Turn(insns, AT_START));
  }

  lemma ScanEndsKept(insns: seq<Insn>, p: Progress)
    requires ScanOk(insns, p) && !GoesOn(insns, p) && p.i > 0
    ensures IsKept(insns, p.minCount)
    ensures forall n: nat :: IsKept(insns, n) ==> n == p.minCount
    ensures !p.willBranch ==> p.minLen == Lens(insns[..p.minCount])
    ensures p.minLen >= JMP_LEN <==> ReachesJump(insns, p.minCount)
  {
    forall n: nat | IsKept(insns, n) ensures n == p.minCount {
      KeptIsUnique(insns, n, p.minCount);
    }
  }

  lemma BoundsWithJumpBack(target: Usize, insns: seq<Insn>, n: nat, minRel: int, maxRel: int, willBranch: bool)
    requires n <= |insns| && RelBoundsOk(insns, n, minRel, maxRel) && target + Lens(insns[..n]) <= USIZE_MAX
    ensures
      var back := target + Lens(insns[..n]);
      BoundsOk(target, insns,
               if willBranch then Site(n, true, target, minRel, maxRel)
               else Site(n, false, back, Min(minRel, back), Max(maxRel, back)))
  {
  }

  // The analysis, from where the loop stops.
  function AnalysisOf(target: Usize, insns: seq<Insn>): Analysis {
    if insns == [] || insns[0].invalid then Undecodable
    else
      var p := ScanFrom(insns, AT_START);
      if p.minLen < JMP_LEN then TooShort
      else if p.willBranch then Accepted(Site(p.minCount, true, target, p.minRel, p.maxRel))
      else
        var back := target + p.minLen;
        Accepted(Site(p.minCount, false, back, Min(p.minRel, back), Max(p.maxRel, back)))
  }

  lemma AcceptedIsKept(target: Usize, insns: seq<Insn>)
    requires target + Lens(insns) <= USIZE_MAX && AnalysisOf(target, insns).Accepted?
    ensures
      var site := AnalysisOf(target, insns).site;
      && IsKept(insns, site.count) && site.willBranch == insns[site.count - 1].branches
      && BoundsOk(target, insns, site)
  {
    var p := ScanFrom(insns, AT_START);
    ScanStops(insns);
    ScanEndsKept(insns, p);
    LensArePrefixes(insns, p.minCount);
    BoundsWithJumpBack(target, insns, p.minCount, p.minRel, p.maxRel, p.willBranch);
  }

  /** `analyze`: what is kept is uniquely determined; where control falls through it is the
      shortest prefix covering the jump, and the jump back leads right behind it. A site
      is accepted exactly when what is kept covers the jump, or padding behind a branch
      does, or the instruction behind that padding reaches far enough. */
  method Analyze(target: Usize, insns: seq<Insn>) returns (r: Analysis)
    requires target + Lens(insns) <= USIZE_MAX
    ensures r == AnalysisOf(target, insns)
    ensures r.Undecodable? <==> insns == [] || insns[0].invalid
    ensures r.Accepted? ==>
              && IsKept(insns, r.site.count)
              && r.site.willBranch == insns[r.site.count - 1].branches
              && BoundsOk(target, insns, r.site)
              && ReachesJump(insns, r.site.count)
              && (!r.site.willBranch ==> r.site.trampolineTarget == target + Lens(insns[..r.site.count]))
    ensures r.TooShort? ==> exists n: nat :: IsKept(insns, n) && !ReachesJump(insns, n)
  {
    if insns == [] || insns[0].invalid {
      return Undecodable;
    }
    var minLen, minCount, willBranch, minRel, maxRel := ScanInsns(insns);
    if minLen < JMP_LEN {
      return TooShort;
    }
    LensArePrefixes(insns, minCount);
    BoundsWithJumpBack(target, insns, minCount, minRel, maxRel, willBranch);
    if willBranch {
      return Accepted(Site(minCount, true, target, minRel, maxRel));
    }
    var trampolineTarget := target + minLen;
    r := Accepted(Site(minCount, false, trampolineTarget, Min(minRel, trampolineTarget), Max(maxRel, trampolineTarget)));
  }

  // The loop of `analyze`.
  method ScanInsns(insns: seq<Insn>)
      returns (minLen: nat, minCount: nat, willBranch: bool, minRel: int, maxRel: int)
    requires insns != [] && !insns[0].invalid
    ensures IsKept(insns, minCount) && (forall n: nat :: IsKept(insns, n) ==> n == minCount)
    ensures willBranch == insns[minCount - 1].branches && RelBoundsOk(insns, minCount, minRel, maxRel)
    ensures !willBranch ==> minLen == Lens(insns[..minCount])
    ensures minLen >= JMP_LEN <==> ReachesJump(insns, minCount)
    ensures
      var p := ScanFrom(insns, AT_START);
      && p.minLen == minLen && p.minCount == minCount && p.willBranch == willBranch && p.minRel == minRel && p.maxRel == maxRel
  {
    minRel, maxRel := USIZE_MAX, 0;
    minLen, minCount, willBranch := 0, 0, false;
    var i: nat, stopped := 0, false;
    ghost var p := AT_START;
    while i < |insns| && !insns[i].invalid && minLen < JMP_LEN && !stopped
      invariant i <= |insns| && p == Progress(i, minLen, minCount, willBranch, minRel, maxRel, stopped)
      invariant ScanFrom(insns, p) == ScanFrom(insns, AT_START)
      decreases |insns| - i
    {
      p := Turn(insns, p);
      minLen := minLen + insns[i].len;
      if willBranch {
        // Behind a branch only padding goes on.
        stopped := !insns[i].padding;
      } else {
        minCount := minCount + 1;
        willBranch := insns[i].branches;
        if insns[i].relAddr.Some? {
          minRel := Min(minRel, insns[i].relAddr.value);
          maxRel := Max(maxRel, insns[i].relAddr.value);
        }
      }
      i := i + 1;
    }
    ScanStops(insns);
    ScanEndsKept(insns, p);
  }

  lemma {:induction false} LensArePrefixes(insns: seq<Insn>, n: nat)
    requires n <= |insns|
    ensures Lens(insns[..n]) <= Lens(insns)
    decreases |insns| - n
  {
    if n < |insns| {
      LensStep(insns, n);
      LensArePrefixes(insns, n + 1);
    } else {
      assert insns[..n] == insns;
    }
  }

  lemma KeptIsUnique(insns: seq<Insn>, m: nat, n: nat)
    requires IsKept(insns, m) && IsKept(insns, n)
    ensures m == n
  {
    if m < n {
      KeptIsNotLonger(insns, m, n);
    } else if n < m {
      KeptIsNotLonger(insns, n, m);
    }
  }

  lemma KeptIsNotLonger(insns: seq<Insn>, m: nat, n: nat)
    requires IsKept(insns, m) && IsKept(insns, n)
    ensures !(m < n)
  {
    if m < n {
      PrefixOfPrefix(insns, m, n - 1);
      LensArePrefixes(insns[..n - 1], m);
    }
  }

  lemma PrefixOfPrefix(insns: seq<Insn>, m: nat, n: nat)
    requires m <= n <= |insns|
    ensures insns[..n][..m] == insns[..m]
  {
  }

  /** Where control falls through, the kept instructions are the shortest prefix that
      covers the jump; none of them is a branch. */
  lemma FallThroughKeepsShortestPrefix(insns: seq<Insn>, n: nat, m: nat)
    requires IsKept(insns, n) && ReachesJump(insns, n) && !insns[n - 1].branches
    ensures forall i :: 0 <= i < n ==> !insns[i].branches && !insns[i].invalid
    ensures m <= |insns| ==> (Lens(insns[..m]) >= JMP_LEN <==> n <= m)
  {
    if m < n {
      PrefixOfPrefix(insns, m, n - 1);
      LensArePrefixes(insns[..n - 1], m);
    } else if m <= |insns| {
      PrefixOfPrefix(insns, n, m);
      LensArePrefixes(insns[..m], n);
    }
  }

  /** Every overwritten byte belongs to a kept instruction or to padding, except exactly
      when other code behind a branch and its padding was counted towards the jump. */
  lemma OverwriteIsSafeUnlessCodeIsCounted(insns: seq<Insn>, site: Site)
    requires IsKept(insns, site.count) && ReachesJump(insns, site.count)
    requires site.willBranch == insns[site.count - 1].branches
    requires forall i :: 0 <= i < |insns| ==> 1 <= insns[i].len
    ensures OverwritesOnlyPadding(insns, site) <==> !(site.willBranch && CodeBehindReaches(insns, site.count))
  {
    var end := PaddedEnd(insns, site.count);
    if site.willBranch && CodeBehindReaches(insns, site.count) {
      PaddingStops(insns, site.count);
      assert HoldsByte(insns, end, Lens(insns[..end]));
    } else {
      BytesLieBefore(insns, if site.willBranch then end else site.count);
    }
  }

  lemma {:induction false} PaddingStops(insns: seq<Insn>, n: nat)
    requires n <= |insns|
    ensures
      var end := PaddedEnd(insns, n);
      end == |insns| || insns[end].invalid || !insns[end].padding || Lens(insns[..end]) >= JMP_LEN
    decreases |insns| - n
  {
    if PaddedEnd(insns, n) != n {
      PaddingStops(insns, n + 1);
    }
  }

  // Once the jump is covered, all of its bytes are in front of that instruction.
  lemma BytesLieBefore(insns: seq<Insn>, n: nat)
    requires n <= |insns| && Lens(insns[..n]) >= JMP_LEN
    ensures forall i, x :: 0 <= i < |insns| && 0 <= x < JMP_LEN && HoldsByte(insns, i, x) ==> i < n
  {
    forall i, x | 0 <= i < |insns| && 0 <= x < JMP_LEN && HoldsByte(insns, i, x) ensures i < n {
      if n <= i {
        PrefixOfPrefix(insns, n, i);
        LensArePrefixes(insns[..i], n);
      }
    }
  }

  /** That exception is real: a return followed by 5-byte instructions of the next
      function is accepted, although the jump then overwrites bytes 1 to 4, which belong
      to the first of them. The list covers the 19 bytes that are decoded. */
  lemma CodeBehindReturnIsOverwritten()
    ensures
      var ret := Insn(1, false, true, false, None);
      var mov := Insn(5, false, false, false, None);
      var last := Insn(3, false, false, false, None);
      var insns := [ret, mov, mov, mov, last];
      && Lens(insns) == DISASM_LEN
      && IsKept(insns, 1) && ReachesJump(insns, 1)
      && (forall x :: 1 <= x < JMP_LEN ==> HoldsByte(insns, 1, x))
      && !OverwritesOnlyPadding(insns, Site(1, true, 0, USIZE_MAX, 0))
  {
    var mov := Insn(5, false, false, false, None);
    var insns := [Insn(1, false, true, false, None), mov, mov, mov, Insn(3, false, false, false, None)];
    assert insns[..5] == insns;
    LensStep(insns, 0);
    LensStep(insns, 1);
    LensStep(insns, 2);
    LensStep(insns, 3);
    LensStep(insns, 4);
    assert HoldsByte(insns, 1, 1);
    assert PaddedEnd(insns, 1) == 1;
  }

  // ----- the window for the copies

  // `usize::midpoint`
  function Midpoint(a: int, b: int): int {
    (a + b) / 2
  }

  function DivCeil2(x: int): int {
    (x + 1) / 2
  }

  function MaxOffsetOf(site: Site): int {
    DivCeil2(site.maxRel - site.minRel) + RELOC_BUF_LEN
  }

  // Where the buffer is asked for: an address and exclusive bounds around it, or anywhere.
  function WindowCenter(target: Usize, site: Site): int {
    if site.minRel <= site.maxRel then Midpoint(site.minRel, site.maxRel) else target
  }

  function WindowStart(site: Site): Bound
    requires 0 <= site.minRel && site.maxRel <= ISIZE_MAX
  {
    if site.minRel <= site.maxRel then Excluded(I32_MIN + MaxOffsetOf(site)) else Unbounded
  }

  function WindowEnd(site: Site): Bound
    requires 0 <= site.minRel && site.maxRel <= ISIZE_MAX
  {
    if site.minRel <= site.maxRel then Excluded(I32_MAX - MaxOffsetOf(site)) else Unbounded
  }

  /** From any instruction pointer in a buffer inside the window, every recorded address
      is a 32-bit displacement away, midpoint rounding included. */
  lemma WindowKeepsReach(target: Usize, insns: seq<Insn>, site: Site, buffer: int, ip: int, addr: int)
    requires 0 <= site.minRel && site.maxRel <= ISIZE_MAX && site.count <= |insns|
    requires BoundsOk(target, insns, site) && Recorded(target, insns, site, addr)
    requires OffsetAllowed(WindowStart(site), WindowEnd(site), buffer - WindowCenter(target, site))
    requires buffer <= ip <= buffer + RELOC_BUF_LEN
    ensures I32_MIN <= addr - ip <= I32_MAX
  {
  }

  /** So whatever buffer the allocator answers, every copied instruction reaches what the
      original reached. */
  lemma AllocatedBufferKeepsReach(
      h: Heap, target: Usize, insns: seq<Insn>, site: Site, spot: Spot, ip: int, addr: int)
    requires HeapOk(h)
    requires 0 <= site.minRel && site.maxRel <= ISIZE_MAX && site.count <= |insns|
    requires BoundsOk(target, insns, site) && Recorded(target, insns, site, addr)
    requires PlanInside(h, Layout(RELOC_BUF_LEN, 1), WindowCenter(target, site), WindowStart(site), WindowEnd(site)) == Found(spot)
    requires spot.addr <= ip <= spot.addr + RELOC_BUF_LEN
    ensures I32_MIN <= addr - ip <= I32_MAX
  {
    AllocNearIsExact(h, Layout(RELOC_BUF_LEN, 1), WindowCenter(target, site), WindowStart(site), WindowEnd(site));
    WindowKeepsReach(target, insns, site, spot.addr, ip, addr);
  }
}
