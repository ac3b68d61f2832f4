/** The sorted vector of half-open address ranges behind `BoundedRangeAllocator`,
    on values: what adopting and carving do to the list and to its bytes. */
module Ranges {
  import opened Results
  import opened Rounding
  import opened Searching

  const MIN_RANGE_LEN: nat := 8

  datatype Range = Range(start: int, end: int)

  predicate Covers(r: Range, x: int) {
    r.start <= x < r.end
  }

  ghost function Bytes(r: Range): set<int> {
    set x: int | r.start <= x < r.end && Covers(r, x)
  }

  ghost function FreeBytes(ranges: seq<Range>): set<int> {
    if ranges == [] then {} else Bytes(ranges[0]) + FreeBytes(ranges[1..])
  }

  // Empty ranges count: neither lies strictly inside the other.
  predicate Apart(a: Range, b: Range) {
    a.end <= b.start || b.end <= a.start
  }

  ghost predicate Ordered(ranges: seq<Range>) {
    && (forall i :: 0 <= i < |ranges| ==> 1 <= ranges[i].start <= ranges[i].end)
    && (forall i, j :: 0 <= i < j < |ranges| ==> ranges[i].end <= ranges[j].start)
  }

  // ----- adopting

  function InsertIndex(ranges: seq<Range>, b: Range): (index: nat)
    ensures index <= |ranges|
  {
    PrefixLength(ranges, (r: Range) => r.start < b.end)
  }

  predicate GrowsDown(ranges: seq<Range>, b: Range) {
    var i := InsertIndex(ranges, b);
    i < |ranges| && ranges[i].start == b.end
  }

  predicate GrowsUp(ranges: seq<Range>, b: Range) {
    var i := InsertIndex(ranges, b);
    i > 0 && ranges[i - 1].end == b.start
  }

  // A short block that touches no range is not kept.
  predicate Forgets(ranges: seq<Range>, b: Range) {
    !GrowsDown(ranges, b) && !GrowsUp(ranges, b) && b.end - b.start < MIN_RANGE_LEN
  }

  function Insert(ranges: seq<Range>, b: Range): seq<Range> {
    var i := InsertIndex(ranges, b);
    if GrowsDown(ranges, b) then ranges[i := Range(b.start, ranges[i].end)]
    else if GrowsUp(ranges, b) then ranges[i - 1 := Range(ranges[i - 1].start, b.end)]
    else if Forgets(ranges, b) then ranges
    else ranges[..i] + [b] + ranges[i..]
  }

  // The block lies in the gap before `InsertIndex`.
  lemma InsertGap(ranges: seq<Range>, b: Range)
    requires Ordered(ranges) && b.start < b.end
    requires forall r :: r in ranges ==> Apart(r, b)
    ensures forall j :: 0 <= j < InsertIndex(ranges, b) ==> ranges[j].end <= b.start
    ensures forall j :: InsertIndex(ranges, b) <= j < |ranges| ==> b.end <= ranges[j].start
  {
    var i := InsertIndex(ranges, b);
    forall j | 0 <= j < i ensures ranges[j].end <= b.start {
      assert ranges[j] in ranges && ranges[j].start < b.end;
    }
    if i < |ranges| {
      assert b.end <= ranges[i].start;
    }
  }

  lemma ReplaceKeepsOrder(ranges: seq<Range>, i: nat, r: Range)
    requires Ordered(ranges) && i < |ranges| && 1 <= r.start <= r.end
    requires forall j :: 0 <= j < i ==> ranges[j].end <= r.start
    requires forall j :: i < j < |ranges| ==> r.end <= ranges[j].start
    ensures Ordered(ranges[i := r])
  {
  }

  lemma InsertKeepsOrder(ranges: seq<Range>, b: Range)
    requires Ordered(ranges) && 1 <= b.start < b.end
    requires forall r :: r in ranges ==> Apart(r, b)
    ensures Ordered(Insert(ranges, b))
  {
    var i := InsertIndex(ranges, b);
    InsertGap(ranges, b);
    if GrowsDown(ranges, b) {
      ReplaceKeepsOrder(ranges, i, Range(b.start, ranges[i].end));
    } else if GrowsUp(ranges, b) {
      ReplaceKeepsOrder(ranges, i - 1, Range(ranges[i - 1].start, b.end));
    } else if !Forgets(ranges, b) {
      OrderedConcat(ranges[..i], [b], ranges[i..], b);
    }
  }

  // The `k`-th range begins where the block ends, as the first one to do so.
  predicate TouchedFromBelow(ranges: seq<Range>, b: Range, k: int) {
    0 <= k < |ranges| && ranges[k].start == b.end && (k > 0 ==> ranges[k - 1].start < b.end)
  }

  // It ends where the block begins, as the last one to do so.
  predicate TouchedFromAbove(ranges: seq<Range>, b: Range, k: int) {
    0 <= k < |ranges| && ranges[k].end == b.start && (k + 1 < |ranges| ==> b.end < ranges[k + 1].start)
  }

  /** A block that touches a range is merged into it, the upper one if there are two: the
      list keeps its length, and the grown range covers both. A block that touches none is
      kept as a range of its own if it is at least 8 bytes long, and dropped otherwise. */
  lemma InsertMergesTouching(ranges: seq<Range>, b: Range)
    requires Ordered(ranges) && 1 <= b.start < b.end
    requires forall r :: r in ranges ==> Apart(r, b)
    ensures
      if exists r :: r in ranges && r.start == b.end then
        exists k :: TouchedFromBelow(ranges, b, k) && Insert(ranges, b) == ranges[k := Range(b.start, ranges[k].end)]
      else if exists r :: r in ranges && r.end == b.start then
        exists k :: TouchedFromAbove(ranges, b, k) && Insert(ranges, b) == ranges[k := Range(ranges[k].start, b.end)]
      else if b.end - b.start >= 8 then
        exists k :: 0 <= k <= |ranges| && Insert(ranges, b) == ranges[..k] + [b] + ranges[k..]
      else Insert(ranges, b) == ranges
  {
    GrowsDownWhenTouched(ranges, b);
    GrowsUpWhenTouched(ranges, b);
    var i := InsertIndex(ranges, b);
    assert !GrowsDown(ranges, b) && !GrowsUp(ranges, b) && b.end - b.start >= 8 ==>
        0 <= i <= |ranges| && Insert(ranges, b) == ranges[..i] + [b] + ranges[i..];
  }

  lemma GrowsDownWhenTouched(ranges: seq<Range>, b: Range)
    requires Ordered(ranges) && 1 <= b.start < b.end
    ensures GrowsDown(ranges, b) <==> exists r :: r in ranges && r.start == b.end
    ensures GrowsDown(ranges, b) ==> TouchedFromBelow(ranges, b, InsertIndex(ranges, b))
  {
    var i := InsertIndex(ranges, b);
    if r :| r in ranges && r.start == b.end {
      var j :| 0 <= j < |ranges| && ranges[j] == r;
      assert i <= j && ranges[i].start <= ranges[j].start;
    }
    if GrowsDown(ranges, b) { assert ranges[i] in ranges; }
  }

  lemma GrowsUpWhenTouched(ranges: seq<Range>, b: Range)
    requires Ordered(ranges) && 1 <= b.start < b.end
    requires forall r :: r in ranges ==> Apart(r, b)
    ensures GrowsUp(ranges, b) <==> exists r :: r in ranges && r.end == b.start
    ensures GrowsUp(ranges, b) && !GrowsDown(ranges, b) ==> TouchedFromAbove(ranges, b, InsertIndex(ranges, b) - 1)
  {
    var i := InsertIndex(ranges, b);
    InsertGap(ranges, b);
    if r :| r in ranges && r.end == b.start {
      var j :| 0 <= j < |ranges| && ranges[j] == r;
      assert j < i;
      assert j < i - 1 ==> ranges[j].end <= ranges[i - 1].start;
    }
    if GrowsUp(ranges, b) { assert ranges[i - 1] in ranges; }
  }

  lemma {:induction false} FreeBytesConcat(a: seq<Range>, b: seq<Range>)
    ensures FreeBytes(a + b) == FreeBytes(a) + FreeBytes(b)
  {
    if a == [] {
      assert a + b == b;
    } else {
      assert (a + b)[1..] == a[1..] + b;
      FreeBytesConcat(a[1..], b);
    }
  }

  lemma FreeBytesAround(pre: seq<Range>, mid: seq<Range>, post: seq<Range>)
    ensures FreeBytes(pre + mid + post) == FreeBytes(pre) + FreeBytes(mid) + FreeBytes(post)
  {
    FreeBytesConcat(pre + mid, post);
    FreeBytesConcat(pre, mid);
  }

  lemma FreeBytesOfOne(r: Range)
    ensures FreeBytes([r]) == Bytes(r)
  {
  }

  lemma FreeBytesOfTwo(a: Range, b: Range)
    ensures FreeBytes([a, b]) == Bytes(a) + Bytes(b)
  {
    FreeBytesOfOne(b);
    assert [a, b][1..] == [b];
  }

  lemma {:induction false} RangeBytesAreFree(ranges: seq<Range>, r: Range)
    requires r in ranges
    ensures Bytes(r) <= FreeBytes(ranges)
  {
    if r != ranges[0] {
      RangeBytesAreFree(ranges[1..], r);
    }
  }

  lemma {:induction false} FreeByteHasRange(ranges: seq<Range>, x: int) returns (i: nat)
    requires x in FreeBytes(ranges)
    ensures i < |ranges| && ranges[i].start <= x < ranges[i].end
  {
    if x in Bytes(ranges[0]) {
      i := 0;
    } else {
      var k := FreeByteHasRange(ranges[1..], x);
      i := k + 1;
    }
  }

  // Replacing one range by a few changes the free bytes by exactly their difference.
  lemma ReplaceBytes(ranges: seq<Range>, i: nat, pieces: seq<Range>)
    requires i < |ranges|
    ensures FreeBytes(ranges) == FreeBytes(ranges[..i]) + Bytes(ranges[i]) + FreeBytes(ranges[i + 1..])
    ensures FreeBytes(ranges[..i] + pieces + ranges[i + 1..])
            == FreeBytes(ranges[..i]) + FreeBytes(pieces) + FreeBytes(ranges[i + 1..])
  {
    assert ranges == ranges[..i] + [ranges[i]] + ranges[i + 1..];
    FreeBytesAround(ranges[..i], [ranges[i]], ranges[i + 1..]);
    FreeBytesOfOne(ranges[i]);
    FreeBytesAround(ranges[..i], pieces, ranges[i + 1..]);
  }

  // The grown range covers exactly the old one and the block.
  lemma GrowBytes(ranges: seq<Range>, i: nat, b: Range, r: Range)
    requires i < |ranges| && Bytes(r) == Bytes(ranges[i]) + Bytes(b)
    ensures FreeBytes(ranges[i := r]) == FreeBytes(ranges) + Bytes(b)
  {
    ReplaceBytes(ranges, i, [r]);
    FreeBytesOfOne(r);
    assert ranges[i := r] == ranges[..i] + [r] + ranges[i + 1..];
  }

  lemma AddBytes(ranges: seq<Range>, i: nat, b: Range)
    requires i <= |ranges|
    ensures FreeBytes(ranges[..i] + [b] + ranges[i..]) == FreeBytes(ranges) + Bytes(b)
  {
    FreeBytesAround(ranges[..i], [b], ranges[i..]);
    FreeBytesOfOne(b);
    FreeBytesConcat(ranges[..i], ranges[i..]);
    assert ranges == ranges[..i] + ranges[i..];
  }

  lemma InsertBytes(ranges: seq<Range>, b: Range)
    requires Ordered(ranges) && b.start < b.end
    requires forall r :: r in ranges ==> Apart(r, b)
    ensures FreeBytes(Insert(ranges, b))
            == FreeBytes(ranges) + if Forgets(ranges, b) then {} else Bytes(b)
  {
    var i := InsertIndex(ranges, b);
    InsertGap(ranges, b);
    if GrowsDown(ranges, b) {
      GrowBytes(ranges, i, b, Range(b.start, ranges[i].end));
    } else if GrowsUp(ranges, b) {
      GrowBytes(ranges, i - 1, b, Range(ranges[i - 1].start, b.end));
    } else if !Forgets(ranges, b) {
      AddBytes(ranges, i, b);
    }
  }

  // ----- carving a block out of one range

  datatype How = AtStart | AtEnd | Split

  datatype Spot = Spot(index: nat, addr: int, how: How)

  function LowestAddr(r: Range, align: nat, lo: int): int
    requires align > 0
  {
    RoundUp(Max(r.start, lo), align)
  }

  function HighestAddr(r: Range, size: nat, align: nat, hi: int): int
    requires align > 0 && r.end >= 0
  {
    RoundDown(Min(SaturatingSub(r.end, size), hi), align)
  }

  // Unaligned blocks prefer the start of the range, aligned ones its end.
  function Place(r: Range, size: nat, align: nat, lo: int, hi: int): Option<(int, How)>
    requires align > 0 && r.end >= 0
  {
    var min := LowestAddr(r, align, lo);
    var max := HighestAddr(r, size, align, hi);
    if min > max then None
    else if align == 1 then
      if r.start == min then Some((min, AtStart))
      else if r.end == max + size then Some((max, AtEnd))
      else Some((min, Split))
    else
      if r.end == max + size then Some((max, AtEnd))
      else if r.start == min then Some((min, AtStart))
      else Some((min, Split))
  }

  // First fit from range `i` on, among the ranges that start below `hi`.
  function Scan(ranges: seq<Range>, i: nat, size: nat, align: nat, lo: int, hi: int): Option<Spot>
    requires align > 0 && i <= |ranges|
    requires forall k :: 0 <= k < |ranges| ==> ranges[k].end >= 0
    decreases |ranges| - i
  {
    if i == |ranges| || ranges[i].start >= hi then None
    else
      match Place(ranges[i], size, align, lo, hi)
      case Some((addr, how)) => Some(Spot(i, addr, how))
      case None => Scan(ranges, i + 1, size, align, lo, hi)
  }

  function SkipIndex(ranges: seq<Range>, lo: int): (index: nat)
    ensures index <= |ranges|
  {
    PrefixLength(ranges, (r: Range) => r.end <= lo)
  }

  function FirstFit(ranges: seq<Range>, size: nat, align: nat, lo: int, hi: int): Option<Spot>
    requires align > 0
    requires forall k :: 0 <= k < |ranges| ==> ranges[k].end >= 0
  {
    Scan(ranges, SkipIndex(ranges, lo), size, align, lo, hi)
  }

  predicate SpotOk(ranges: seq<Range>, size: nat, spot: Spot) {
    && spot.index < |ranges|
    && var r := ranges[spot.index];
    && r.start <= spot.addr && spot.addr + size <= r.end
    && (spot.how.AtStart? ==> spot.addr == r.start)
    && (spot.how.AtEnd? ==> spot.addr + size == r.end)
    && (spot.how.Split? ==> r.start < spot.addr && spot.addr + size < r.end)
  }

  // What is cut off in front of a split and too short to keep.
  function Fragment(ranges: seq<Range>, size: nat, spot: Spot): Range
    requires SpotOk(ranges, size, spot)
  {
    var r := ranges[spot.index];
    if spot.how.Split? && spot.addr - r.start < MIN_RANGE_LEN then Range(r.start, spot.addr)
    else Range(r.start, r.start)
  }

  function Remainder(ranges: seq<Range>, size: nat, spot: Spot): seq<Range>
    requires SpotOk(ranges, size, spot)
  {
    var r := ranges[spot.index];
    match spot.how
    case AtStart => [Range(r.start + size, r.end)]
    case AtEnd => [Range(r.start, spot.addr)]
    case Split =>
      (if spot.addr - r.start >= MIN_RANGE_LEN then [Range(r.start, spot.addr)] else [])
      + [Range(spot.addr + size, r.end)]
  }

  function Carve(ranges: seq<Range>, size: nat, spot: Spot): seq<Range>
    requires SpotOk(ranges, size, spot)
  {
    ranges[..spot.index] + Remainder(ranges, size, spot) + ranges[spot.index + 1..]
  }

  lemma RemainderIsOrdered(ranges: seq<Range>, size: nat, spot: Spot)
    requires SpotOk(ranges, size, spot) && 1 <= ranges[spot.index].start
    ensures Ordered(Remainder(ranges, size, spot))
    ensures forall p :: p in Remainder(ranges, size, spot) ==>
              ranges[spot.index].start <= p.start && p.end <= ranges[spot.index].end
  {
  }

  lemma CarveKeepsOrder(ranges: seq<Range>, size: nat, spot: Spot)
    requires Ordered(ranges) && SpotOk(ranges, size, spot)
    ensures Ordered(Carve(ranges, size, spot))
  {
    RemainderIsOrdered(ranges, size, spot);
    OrderedConcat(ranges[..spot.index], Remainder(ranges, size, spot), ranges[spot.index + 1..], ranges[spot.index]);
  }

  lemma OrderedConcat(pre: seq<Range>, mid: seq<Range>, post: seq<Range>, room: Range)
    requires Ordered(pre) && Ordered(mid) && Ordered(post) && room.start <= room.end
    requires forall p :: p in pre ==> p.end <= room.start
    requires forall p :: p in mid ==> room.start <= p.start && p.end <= room.end
    requires forall p :: p in post ==> room.end <= p.start
    ensures Ordered(pre + mid + post)
  {
  }

  lemma RemainderBytes(ranges: seq<Range>, size: nat, spot: Spot)
    requires SpotOk(ranges, size, spot)
    ensures
      var rest := FreeBytes(Remainder(ranges, size, spot));
      var taken := Bytes(Range(spot.addr, spot.addr + size));
      var lost := Bytes(Fragment(ranges, size, spot));
      && Bytes(ranges[spot.index]) == rest + taken + lost
      && rest !! taken && rest !! lost && taken !! lost
  {
    var rest := Remainder(ranges, size, spot);
    if |rest| == 2 { FreeBytesOfTwo(rest[0], rest[1]); } else { FreeBytesOfOne(rest[0]); }
  }

  lemma RangesShareNoByte(ranges: seq<Range>, i: nat)
    requires Ordered(ranges) && i < |ranges|
    ensures Bytes(ranges[i]) !! FreeBytes(ranges[..i])
    ensures Bytes(ranges[i]) !! FreeBytes(ranges[i + 1..])
  {
    forall x | x in Bytes(ranges[i]) ensures x !in FreeBytes(ranges[..i]) && x !in FreeBytes(ranges[i + 1..]) {
      if x in FreeBytes(ranges[..i]) {
        var k := FreeByteHasRange(ranges[..i], x);
      }
      if x in FreeBytes(ranges[i + 1..]) {
        var k := FreeByteHasRange(ranges[i + 1..], x);
      }
    }
  }

  // Carving splits the free bytes into the block, the fragment and what stays free.
  lemma CarveBytes(ranges: seq<Range>, size: nat, spot: Spot)
    requires Ordered(ranges) && SpotOk(ranges, size, spot)
    ensures
      var free' := FreeBytes(Carve(ranges, size, spot));
      var taken := Bytes(Range(spot.addr, spot.addr + size));
      var lost := Bytes(Fragment(ranges, size, spot));
      && FreeBytes(ranges) == free' + taken + lost
      && taken !! lost && taken !! free' && lost !! free'
  {
    RemainderBytes(ranges, size, spot);
    RangesShareNoByte(ranges, spot.index);
    ReplaceBytes(ranges, spot.index, Remainder(ranges, size, spot));
  }

  lemma {:induction false} BytesCount(r: Range)
    requires r.start <= r.end
    ensures |Bytes(r)| == r.end - r.start
    decreases r.end - r.start
  {
    if r.start < r.end {
      BytesCount(Range(r.start + 1, r.end));
      assert Bytes(r) == Bytes(Range(r.start + 1, r.end)) + {r.start};
    }
  }

  // ----- what the scan finds

  predicate Fits(r: Range, p: int, size: nat, align: nat, lo: int, hi: int)
    requires align > 0
  {
    Aligned(p, align) && lo <= p <= hi && r.start <= p && p + size <= r.end
  }

  lemma PlaceIsExact(r: Range, size: nat, align: nat, lo: int, hi: int)
    requires align > 0 && 1 <= r.start <= r.end
    ensures Place(r, size, align, lo, hi).None? <==> forall p :: !Fits(r, p, size, align, lo, hi)
    ensures
      var at := Place(r, size, align, lo, hi);
      at.Some? ==> Fits(r, at.value.0, size, align, lo, hi) && SpotOk([r], size, Spot(0, at.value.0, at.value.1))
  {
    var min := LowestAddr(r, align, lo);
    var max := HighestAddr(r, size, align, hi);
    RoundUpIsLeast(Max(r.start, lo), align);
    RoundDownIsGreatest(Min(SaturatingSub(r.end, size), hi), align);
    if min <= max {
      assert Fits(r, min, size, align, lo, hi);
    }
  }

  /** Which of the fitting addresses a range offers: unaligned blocks prefer its start and
      then its end, aligned ones its end and then its start; inside, the lowest one. */
  lemma PlacePrefersAnEnd(r: Range, size: nat, align: nat, lo: int, hi: int)
    requires align > 0 && 1 <= r.start <= r.end && Place(r, size, align, lo, hi).Some?
    ensures
      var (p, how) := Place(r, size, align, lo, hi).value;
      var (atStart, atEnd) := (Fits(r, r.start, size, align, lo, hi), Fits(r, r.end - size, size, align, lo, hi));
      && how == (if align == 1 then (if atStart then AtStart else if atEnd then AtEnd else Split)
                 else if atEnd then AtEnd else if atStart then AtStart else Split)
      && (how.AtStart? ==> p == r.start) && (how.AtEnd? ==> p == r.end - size)
      && (how.Split? ==> forall q :: Fits(r, q, size, align, lo, hi) ==> p <= q)
  {
    PlaceIsExact(r, size, align, lo, hi);
    RoundUpIsLeast(Max(r.start, lo), align);
    RoundDownIsGreatest(Min(SaturatingSub(r.end, size), hi), align);
  }

  /** First fit is exact: the scan answers a fitting address in the first range that
      has one, and none exactly when no range starting below `hi` has one. */
  lemma {:induction false} ScanIsExact(ranges: seq<Range>, i: nat, size: nat, align: nat, lo: int, hi: int)
    requires align > 0 && i <= |ranges| && Ordered(ranges)
    ensures
      match Scan(ranges, i, size, align, lo, hi)
      case Some(spot) =>
        && i <= spot.index < |ranges| && SpotOk(ranges, size, spot)
        && ranges[spot.index].start < hi
        && Fits(ranges[spot.index], spot.addr, size, align, lo, hi)
        && Place(ranges[spot.index], size, align, lo, hi) == Some((spot.addr, spot.how))
        && forall k, p :: i <= k < spot.index ==> !Fits(ranges[k], p, size, align, lo, hi)
      case None =>
        forall k, p :: i <= k < |ranges| && ranges[k].start < hi ==> !Fits(ranges[k], p, size, align, lo, hi)
    decreases |ranges| - i
  {
    if i < |ranges| && ranges[i].start < hi {
      PlaceIsExact(ranges[i], size, align, lo, hi);
      if Place(ranges[i], size, align, lo, hi).None? {
        ScanIsExact(ranges, i + 1, size, align, lo, hi);
      }
    }
  }

  lemma FirstFitIsExact(ranges: seq<Range>, size: nat, align: nat, lo: int, hi: int)
    requires align > 0 && size > 0 && Ordered(ranges)
    ensures
      match FirstFit(ranges, size, align, lo, hi)
      case Some(spot) =>
        && spot.index < |ranges| && SpotOk(ranges, size, spot)
        && ranges[spot.index].start < hi
        && Fits(ranges[spot.index], spot.addr, size, align, lo, hi)
        && Place(ranges[spot.index], size, align, lo, hi) == Some((spot.addr, spot.how))
        && forall k, p :: 0 <= k < spot.index ==> !Fits(ranges[k], p, size, align, lo, hi)
      case None =>
        forall k, p :: 0 <= k < |ranges| && ranges[k].start < hi ==> !Fits(ranges[k], p, size, align, lo, hi)
  {
    ScanIsExact(ranges, SkipIndex(ranges, lo), size, align, lo, hi);
  }
}
