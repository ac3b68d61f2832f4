/** Walking the process's memory map as a tiling of mapped and unmapped regions. The map
    itself, which the kernel reports, is a parameter. */
module MemoryRegions {
  import opened Results
  import opened Rounding
  import opened Searching

  datatype SysInfo = SysInfo(granularity: nat, minAddress: nat, maxAddress: nat)

  // What `SysInfo::new` asserts.
  predicate SysInfoOk(info: SysInfo) {
    && info.granularity > 0
    && 0 < info.minAddress < info.maxAddress <= ISIZE_MAX
    && Aligned(info.minAddress, info.granularity) && Aligned(info.maxAddress, info.granularity)
  }

  // A mapped region, and a tile of the address space (unmapped if it has no protection).
  datatype RegionInfo = RegionInfo(start: nat, end: nat, prot: nat)

  datatype Tile = Tile(start: nat, end: nat, prot: Option<nat>)

  ghost predicate MapOk(regions: seq<RegionInfo>) {
    && (forall i :: 0 <= i < |regions| ==> regions[i].start < regions[i].end)
    && (forall i, j :: 0 <= i < j < |regions| ==> regions[i].end <= regions[j].start)
  }

  // Sorted the other way round, so that the last one comes next.
  ghost predicate Descending(regions: seq<RegionInfo>) {
    && (forall i :: 0 <= i < |regions| ==> regions[i].start < regions[i].end)
    && (forall i, j :: 0 <= i < j < |regions| ==> regions[j].end <= regions[i].start)
  }

  function Reversed(regions: seq<RegionInfo>): (r: seq<RegionInfo>)
    ensures |r| == |regions| && forall i :: 0 <= i < |r| ==> r[i] == regions[|regions| - 1 - i]
  {
    seq(|regions|, i requires 0 <= i < |regions| => regions[|regions| - 1 - i])
  }

  // ----- the iterator

  function MappedTile(r: RegionInfo): Tile {
    Tile(r.start, r.end, Some(r.prot))
  }

  function Tiles(regions: seq<RegionInfo>, prevEnd: nat, maxAddress: nat): seq<Tile>
    decreases |regions|
  {
    if regions == [] then
      if prevEnd < maxAddress then [Tile(prevEnd, maxAddress, None)] else []
    else
      var next := regions[|regions| - 1];
      HeadTiles(next, prevEnd) + Tiles(regions[..|regions| - 1], next.end, maxAddress)
  }

  // The region tiles, in order.
  function Mapped(tiles: seq<Tile>): seq<RegionInfo> {
    if tiles == [] then []
    else
      (if tiles[0].prot.Some? then [RegionInfo(tiles[0].start, tiles[0].end, tiles[0].prot.value)] else [])
      + Mapped(tiles[1..])
  }

  ghost predicate Gapless(tiles: seq<Tile>) {
    && (forall i :: 0 <= i < |tiles| ==> tiles[i].start < tiles[i].end)
    && (forall i :: 0 < i < |tiles| ==> tiles[i - 1].end == tiles[i].start)
  }

  ghost predicate Disjoint(tile: Tile, r: RegionInfo) {
    tile.end <= r.start || r.end <= tile.start
  }

  // Where the walk begins.
  function FirstStart(regions: seq<RegionInfo>, prevEnd: nat): nat {
    if regions == [] || prevEnd < regions[|regions| - 1].start then prevEnd else regions[|regions| - 1].start
  }

  lemma GaplessConcat(a: seq<Tile>, b: seq<Tile>)
    requires Gapless(a) && Gapless(b)
    requires a != [] && b != [] ==> a[|a| - 1].end == b[0].start
    ensures Gapless(a + b)
  {
  }

  // The tiles up to the next region.
  function HeadTiles(next: RegionInfo, prevEnd: nat): (head: seq<Tile>)
    ensures head != [] && head[|head| - 1] == MappedTile(next)
  {
    (if prevEnd < next.start then [Tile(prevEnd, next.start, None)] else []) + [MappedTile(next)]
  }

  lemma HeadIsGapless(next: RegionInfo, prevEnd: nat)
    requires next.start < next.end
    ensures Gapless(HeadTiles(next, prevEnd))
    ensures HeadTiles(next, prevEnd)[0].start == if prevEnd < next.start then prevEnd else next.start
  {
  }

  /** The tiles follow one another without a gap up to the end of the address space. */
  lemma {:induction false} TilesAreGapless(regions: seq<RegionInfo>, prevEnd: nat, maxAddress: nat)
    requires Descending(regions)
    ensures
      var tiles := Tiles(regions, prevEnd, maxAddress);
      && Gapless(tiles)
      && (if tiles == [] then regions == [] && prevEnd >= maxAddress
          else tiles[|tiles| - 1].end >= maxAddress && tiles[0].start == FirstStart(regions, prevEnd))
    decreases |regions|
  {
    if regions != [] {
      var n := |regions| - 1;
      var next := regions[n];
      TilesAreGapless(regions[..n], next.end, maxAddress);
      assert FirstStart(regions[..n], next.end) == next.end;
      HeadIsGapless(next, prevEnd);
      var rest := Tiles(regions[..n], next.end, maxAddress);
      GaplessConcat(HeadTiles(next, prevEnd), rest);
      assert Tiles(regions, prevEnd, maxAddress) == HeadTiles(next, prevEnd) + rest;
    }
  }

  /** The mapped tiles are the given regions, each once, in ascending order. */
  lemma {:induction false} MappedTilesAreTheRegions(regions: seq<RegionInfo>, prevEnd: nat, maxAddress: nat)
    ensures Mapped(Tiles(regions, prevEnd, maxAddress)) == Reversed(regions)
    decreases |regions|
  {
    if regions != [] {
      var n := |regions| - 1;
      var next := regions[n];
      MappedTilesAreTheRegions(regions[..n], next.end, maxAddress);
      MappedStep(if prevEnd < next.start then [Tile(prevEnd, next.start, None)] else [], next,
                 Tiles(regions[..n], next.end, maxAddress));
      assert Reversed(regions) == [next] + Reversed(regions[..n]);
    }
  }

  /** The other tiles meet none of the regions. */
  lemma {:induction false} UnmappedTilesAreFree(regions: seq<RegionInfo>, prevEnd: nat, maxAddress: nat, t: Tile)
    requires Descending(regions)
    requires forall r :: r in regions ==> prevEnd <= r.end
    requires forall r :: r in regions ==> r.start < maxAddress
    requires t in Tiles(regions, prevEnd, maxAddress) && t.prot.None?
    ensures prevEnd <= t.start && t.end <= maxAddress && forall r :: r in regions ==> Disjoint(t, r)
    decreases |regions|
  {
    if regions != [] {
      var n := |regions| - 1;
      var next := regions[n];
      if t in Tiles(regions[..n], next.end, maxAddress) {
        UnmappedTilesAreFree(regions[..n], next.end, maxAddress, t);
      }
      assert forall r :: r in regions ==> r == next || r in regions[..n];
    }
  }

  // Between two unmapped tiles there is a mapped one.
  ghost predicate GapsApart(tiles: seq<Tile>) {
    forall i :: 0 <= i < |tiles| - 1 ==> tiles[i].prot.Some? || tiles[i + 1].prot.Some?
  }

  lemma GapsApartConcat(a: seq<Tile>, b: seq<Tile>)
    requires GapsApart(a) && GapsApart(b) && a != [] && a[|a| - 1].prot.Some?
    ensures GapsApart(a + b)
  {
  }

  lemma {:induction false} GapsAreSeparate(regions: seq<RegionInfo>, prevEnd: nat, maxAddress: nat)
    ensures GapsApart(Tiles(regions, prevEnd, maxAddress))
    decreases |regions|
  {
    if regions != [] {
      var next := regions[|regions| - 1];
      GapsAreSeparate(regions[..|regions| - 1], next.end, maxAddress);
      GapsApartConcat(HeadTiles(next, prevEnd), Tiles(regions[..|regions| - 1], next.end, maxAddress));
    }
  }

  lemma MappedStep(gap: seq<Tile>, next: RegionInfo, rest: seq<Tile>)
    requires |gap| <= 1 && forall t :: t in gap ==> t.prot.None?
    ensures Mapped(gap + [MappedTile(next)] + rest) == [next] + Mapped(rest)
  {
  }

  // How many of the descending regions end after `start`.
  function EndingAfter(regions: seq<RegionInfo>, start: nat): (n: nat)
    ensures n <= |regions|
  {
    PrefixLength(regions, (r: RegionInfo) => r.end > start)
  }

  /** The halving search whose probes record, as a side effect, the end of a region that
      lies wholly before `start`: the last recorded one is the highest such end. */
  method SearchRecordingEnd(regions: seq<RegionInfo>, start: nat, minAddress: nat) returns (index: nat, prevEnd: nat)
    requires Descending(regions)
    ensures index == EndingAfter(regions, start)
    ensures prevEnd == if index < |regions| then regions[index].end else minAddress
  {
    prevEnd := minAddress;
    var size, base := |regions|, 0;
    if size == 0 {
      return 0, prevEnd;
    }
    ghost var last := |regions|;   // position recorded last
    while size > 1
      invariant 1 <= size && base + size <= |regions|
      invariant base > 0 ==> regions[base].end > start
      invariant last == |regions| == base + size || (base + size - 1 <= last <= base + size && last < |regions|)
      invariant last < |regions| ==> regions[last].end <= start && prevEnd == regions[last].end
      invariant last == |regions| ==> prevEnd == minAddress
      decreases size
    {
      var half := size / 2;
      var mid := base + half;
      if regions[mid].end <= start {
        prevEnd := regions[mid].end;
        last := mid;
      } else {
        base := mid;
      }
      size := size - half;
    }
    if regions[base].end <= start {
      prevEnd := regions[base].end;
      index := base;
    } else {
      index := base + 1;
    }
    PrefixIsUnique(regions, (r: RegionInfo) => r.end > start, index);
  }

  // The regions `Region::iter` keeps of a sorted map.
  function Kept(regions: seq<RegionInfo>, maxAddress: nat): seq<RegionInfo> {
    regions[..PrefixLength(regions, (r: RegionInfo) => r.start < maxAddress)]
  }

  class RegionIter {
    var regions: seq<RegionInfo>
    var prevEnd: nat
    const maxAddress: nat

    ghost function Remaining(): seq<Tile>
      reads this
    {
      Tiles(regions, prevEnd, maxAddress)
    }

    /** `Region::iter(start)` over a sorted memory map. */
    constructor (map_: seq<RegionInfo>, start: nat, info: SysInfo)
      requires MapOk(map_)
      ensures
        var list := Reversed(Kept(map_, info.maxAddress));
        var n := EndingAfter(list, start);
        && maxAddress == info.maxAddress
        && regions == list[..n]
        && prevEnd == if n < |list| then list[n].end else info.minAddress
    {
      var list := Reversed(Kept(map_, info.maxAddress));
      var index, lastEnd := SearchRecordingEnd(list, start, info.minAddress);
      regions := list[..index];
      prevEnd := lastEnd;
      maxAddress := info.maxAddress;
    }

    method Next() returns (tile: Option<Tile>)
      modifies this
      ensures old(Remaining()) == (if tile.Some? then [tile.value] else []) + Remaining()
      ensures tile.None? ==> Remaining() == []
    {
      if regions != [] {
        var next := regions[|regions| - 1];
        if prevEnd < next.start {
          tile := Some(Tile(prevEnd, next.start, None));
          prevEnd := next.start;
        } else {
          tile := Some(MappedTile(next));
          prevEnd := next.end;
          regions := regions[..|regions| - 1];
        }
      } else if prevEnd < maxAddress {
        tile := Some(Tile(prevEnd, maxAddress, None));
        prevEnd := maxAddress;
      } else {
        tile := None;
      }
    }
  }

  // All tiles of `Region::iter(start)`.
  ghost function TilesFrom(map_: seq<RegionInfo>, start: nat, info: SysInfo): seq<Tile>
    requires MapOk(map_)
  {
    var list := Reversed(Kept(map_, info.maxAddress));
    var n := EndingAfter(list, start);
    Tiles(list[..n], if n < |list| then list[n].end else info.minAddress, info.maxAddress)
  }


  // What the walk starts from: the kept regions that end after `start`, and the end of
  // the last one before.
  ghost predicate WalkOk(map_: seq<RegionInfo>, start: nat, info: SysInfo, regions: seq<RegionInfo>, prevEnd: nat) {
    && Descending(regions)
    && prevEnd <= start
    && (forall r :: r in regions <==> r in map_ && r.end > start && r.start < info.maxAddress)
    && (forall r :: r in map_ && r.start < info.maxAddress && r.end <= start ==> r.end <= prevEnd)
    && (prevEnd == info.minAddress || exists r :: r in map_ && r.end == prevEnd)
  }

  lemma ReversedMembers(xs: seq<RegionInfo>)
    ensures forall r :: r in Reversed(xs) <==> r in xs
  {
    var ys := Reversed(xs);
    forall r | r in xs ensures r in ys {
      var i :| 0 <= i < |xs| && xs[i] == r;
      assert ys[|xs| - 1 - i] == r;
    }
  }

  lemma ReversedDescends(xs: seq<RegionInfo>)
    requires MapOk(xs)
    ensures Descending(Reversed(xs))
  {
  }

  lemma ReversedAscends(xs: seq<RegionInfo>)
    requires Descending(xs)
    ensures MapOk(Reversed(xs))
  {
  }

  lemma KeptMembers(map_: seq<RegionInfo>, maxAddress: nat)
    requires MapOk(map_)
    ensures MapOk(Kept(map_, maxAddress))
    ensures forall r :: r in Kept(map_, maxAddress) <==> r in map_ && r.start < maxAddress
  {
  }

  lemma SplitMembers(list: seq<RegionInfo>, start: nat)
    requires Descending(list)
    ensures
      var n := EndingAfter(list, start);
      && Descending(list[..n])
      && (forall r :: r in list[..n] <==> r in list && r.end > start)
      && (n < |list| ==> list[n] in list && list[n].end <= start)
      && (forall r :: r in list && r.end <= start ==> n < |list| && r.end <= list[n].end)
  {
  }

  lemma WalkBegins(map_: seq<RegionInfo>, start: nat, info: SysInfo)
    requires MapOk(map_) && info.minAddress <= start
    ensures
      var list := Reversed(Kept(map_, info.maxAddress));
      var n := EndingAfter(list, start);
      WalkOk(map_, start, info, list[..n], if n < |list| then list[n].end else info.minAddress)
  {
    KeptMembers(map_, info.maxAddress);
    ReversedMembers(Kept(map_, info.maxAddress));
    ReversedDescends(Kept(map_, info.maxAddress));
    SplitMembers(Reversed(Kept(map_, info.maxAddress)), start);
  }

  // A gapless walk from `start` or before to the end of the address space: its mapped
  // tiles are the map's regions ending after `start`, once each and ascending; its
  // unmapped tiles meet no region of the map at all.
  ghost predicate Tiling(map_: seq<RegionInfo>, start: nat, info: SysInfo, tiles: seq<Tile>) {
    && Gapless(tiles)
    && (start < info.maxAddress ==> tiles != [])
    && (tiles != [] ==> tiles[0].start <= start && tiles[|tiles| - 1].end >= info.maxAddress)
    && MapOk(Mapped(tiles))
    && (forall r :: r in Mapped(tiles) <==> r in map_ && r.end > start && r.start < info.maxAddress)
    && (forall t :: t in tiles && t.prot.None? ==>
          t.end <= info.maxAddress && forall r :: r in map_ ==> Disjoint(t, r))
    && GapsApart(tiles)
    && (tiles != [] && tiles[0].prot.None? ==>
          tiles[0].start == info.minAddress || exists r :: r in map_ && r.end == tiles[0].start)
  }

  lemma WalkTiles(map_: seq<RegionInfo>, start: nat, info: SysInfo, regions: seq<RegionInfo>, prevEnd: nat)
    requires WalkOk(map_, start, info, regions, prevEnd)
    ensures Tiling(map_, start, info, Tiles(regions, prevEnd, info.maxAddress))
  {
    var tiles := Tiles(regions, prevEnd, info.maxAddress);
    TilesAreGapless(regions, prevEnd, info.maxAddress);
    MappedTilesAreTheRegions(regions, prevEnd, info.maxAddress);
    ReversedMembers(regions);
    ReversedAscends(regions);
    forall t | t in tiles && t.prot.None?
      ensures t.end <= info.maxAddress && forall r :: r in map_ ==> Disjoint(t, r)
    {
      UnmappedTilesAreFree(regions, prevEnd, info.maxAddress, t);
    }
    GapsAreSeparate(regions, prevEnd, info.maxAddress);
    if regions != [] { assert regions[|regions| - 1] in regions; }
  }

  /** Over any sorted, disjoint map, `Region::iter` tiles the address space. */
  lemma IterTilesAddressSpace(map_: seq<RegionInfo>, start: nat, info: SysInfo)
    requires MapOk(map_) && info.minAddress <= start
    ensures Tiling(map_, start, info, TilesFrom(map_, start, info))
  {
    var list := Reversed(Kept(map_, info.maxAddress));
    var n := EndingAfter(list, start);
    WalkBegins(map_, start, info);
    WalkTiles(map_, start, info, list[..n], if n < |list| then list[n].end else info.minAddress);
  }
}
