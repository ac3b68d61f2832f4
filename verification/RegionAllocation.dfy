/** `Region::alloc_between`: map new memory in the first gap that has room near an
    address, starting over when the kernel no longer grants the spot. */
module RegionAllocation {
  import opened Results
  import opened Rounding
  import opened Ranges
  import opened MemoryRegions

  // One pass: the memory map it reads, and what mapping memory at the spot answers.
  datatype Answer = Granted | Taken | Failed

  datatype Pass = Pass(map_: seq<RegionInfo>, answer: Answer)

  datatype Reply = Got(region: Range) | NoRoom | OsError | OutOfPasses

  // What is asked for: `size` bytes starting between `minAddr` and `maxAddr`.
  datatype Request = Request(minAddr: nat, maxAddr: nat, size: nat)

  predicate RequestOk(q: Request, info: SysInfo) {
    SysInfoOk(info) && info.minAddress <= q.minAddr <= q.maxAddr && 0 < q.size && q.maxAddr + q.size <= info.maxAddress
  }

  function LowestSpot(q: Request, info: SysInfo): int
    requires info.granularity > 0
  {
    RoundDown(q.minAddr, info.granularity)
  }

  function HighestEnd(q: Request, info: SysInfo): int
    requires info.granularity > 0
  {
    RoundUp(q.maxAddr + q.size, info.granularity)
  }

  // The spot a tile offers, if it is unmapped and large enough.
  function Spot(t: Tile, q: Request, info: SysInfo): Option<Range>
    requires info.granularity > 0
  {
    var min := Max(RoundUp(t.start, info.granularity), LowestSpot(q, info));
    var max := RoundUp(Max(min, q.minAddr) + q.size, info.granularity);
    if t.prot.None? && min <= q.maxAddr && max <= t.end then Some(Range(min, max)) else None
  }

  // The first spot along the tiles, up to the highest useful address.
  function FirstSpot(tiles: seq<Tile>, q: Request, info: SysInfo): Option<Range>
    requires info.granularity > 0
  {
    if tiles == [] then None
    else if Spot(tiles[0], q, info).Some? then Spot(tiles[0], q, info)
    else if RoundUp(tiles[0].end, info.granularity) >= HighestEnd(q, info) then None
    else FirstSpot(tiles[1..], q, info)
  }

  // The request's bytes fit into the region from `p` on.
  predicate HoldsAt(region: Range, q: Request, p: int) {
    q.minAddr <= p <= q.maxAddr && region.start <= p && p + q.size <= region.end
  }

  // A region that serves the request: whole pages in unmapped memory holding the bytes.
  ghost predicate Serves(region: Range, q: Request, info: SysInfo)
    requires info.granularity > 0
  {
    && Aligned(region.start, info.granularity) && Aligned(region.end, info.granularity)
    && exists p :: HoldsAt(region, q, p)
  }

  ghost predicate Unmapped(region: Range, map_: seq<RegionInfo>) {
    forall r :: r in map_ ==> region.end <= r.start || r.end <= region.start
  }

  lemma SpotServes(t: Tile, q: Request, info: SysInfo)
    requires RequestOk(q, info) && Spot(t, q, info).Some?
    ensures
      var region := Spot(t, q, info).value;
      Serves(region, q, info) && t.start <= region.start < region.end <= t.end && LowestSpot(q, info) <= region.start
  {
    var region := Spot(t, q, info).value;
    var p := Max(region.start, q.minAddr);
    RoundUpIsLeast(t.start, info.granularity);
    RoundDownIsGreatest(q.minAddr, info.granularity);
    RoundUpIsLeast(p + q.size, info.granularity);
    assert HoldsAt(region, q, p);
  }

  // A tile that holds a serving region offers a spot.
  lemma RoomMeansSpot(t: Tile, q: Request, info: SysInfo, region: Range)
    requires RequestOk(q, info) && t.prot.None?
    requires Serves(region, q, info) && t.start <= region.start && region.end <= t.end
    ensures Spot(t, q, info).Some?
  {
    var p :| HoldsAt(region, q, p);
    var min := Max(RoundUp(t.start, info.granularity), LowestSpot(q, info));
    RoundUpIsLeast(t.start, info.granularity);
    RoundDownIsGreatest(q.minAddr, info.granularity);
    RoundUpIsLeast(Max(min, q.minAddr) + q.size, info.granularity);
    assert RoundUp(t.start, info.granularity) <= region.start;
  }

  lemma {:induction false} FirstSpotIsASpot(tiles: seq<Tile>, q: Request, info: SysInfo) returns (i: nat)
    requires info.granularity > 0 && FirstSpot(tiles, q, info).Some?
    ensures i < |tiles| && Spot(tiles[i], q, info) == FirstSpot(tiles, q, info)
  {
    if Spot(tiles[0], q, info).Some? {
      i := 0;
    } else {
      var k := FirstSpotIsASpot(tiles[1..], q, info);
      i := k + 1;
    }
  }

  // Giving up early at the highest useful address misses nothing.
  lemma {:induction false} NoFirstSpotMeansNoSpot(tiles: seq<Tile>, q: Request, info: SysInfo, i: nat)
    requires RequestOk(q, info) && Gapless(tiles) && i < |tiles|
    requires FirstSpot(tiles, q, info).None?
    ensures Spot(tiles[i], q, info).None?
  {
    if i > 0 {
      if RoundUp(tiles[0].end, info.granularity) >= HighestEnd(q, info) {
        TilesAscend(tiles, 0, i);
        RoundUpIsLeast(tiles[0].end, info.granularity);
        RoundUpIsLeast(tiles[i].start, info.granularity);
        RoundUpIsLeast(q.maxAddr + q.size, info.granularity);
      } else {
        assert forall k :: 0 < k < |tiles[1..]| ==> tiles[1..][k - 1] == tiles[k] && tiles[1..][k] == tiles[k + 1];
        NoFirstSpotMeansNoSpot(tiles[1..], q, info, i - 1);
      }
    }
  }

  lemma {:induction false} TilesAscend(tiles: seq<Tile>, i: nat, j: nat)
    requires Gapless(tiles) && i < j < |tiles|
    ensures tiles[i].end <= tiles[j].start
    decreases j
  {
    if i + 1 < j {
      TilesAscend(tiles, i, j - 1);
    }
  }

  // Some tile holds any address between the first start and the last end.
  lemma {:induction false} TileAt(tiles: seq<Tile>, p: int) returns (i: nat)
    requires Gapless(tiles) && tiles != [] && tiles[0].start <= p < tiles[|tiles| - 1].end
    ensures i < |tiles| && tiles[i].start <= p < tiles[i].end
  {
    if p < tiles[0].end {
      i := 0;
    } else {
      assert forall k :: 0 < k < |tiles[1..]| ==> tiles[1..][k - 1] == tiles[k] && tiles[1..][k] == tiles[k + 1];
      var k := TileAt(tiles[1..], p);
      i := k + 1;
    }
  }

  lemma {:induction false} MappedTileIsMapped(tiles: seq<Tile>, i: nat)
    requires i < |tiles| && tiles[i].prot.Some?
    ensures RegionInfo(tiles[i].start, tiles[i].end, tiles[i].prot.value) in Mapped(tiles)
  {
    if i > 0 {
      MappedTileIsMapped(tiles[1..], i - 1);
    }
  }

  // A run of whole pages of unmapped user memory that serves the request.
  ghost predicate IsRoom(region: Range, map_: seq<RegionInfo>, q: Request, info: SysInfo)
    requires info.granularity > 0
  {
    info.minAddress <= region.start && region.end <= info.maxAddress && Serves(region, q, info) && Unmapped(region, map_)
  }

  lemma LowestSpotIsInRange(q: Request, info: SysInfo)
    requires SysInfoOk(info) && info.minAddress <= q.minAddr
    ensures info.minAddress <= LowestSpot(q, info) <= q.minAddr
  {
    RoundDownIsGreatest(q.minAddr, info.granularity);
  }

  // What a first pass over the map finds.
  ghost function FirstRoom(map_: seq<RegionInfo>, q: Request, info: SysInfo): Option<Range>
    requires RequestOk(q, info) && MapOk(map_)
  {
    LowestSpotIsInRange(q, info);
    FirstSpot(TilesFrom(map_, LowestSpot(q, info), info), q, info)
  }

  /** The search is exact: it finds a spot if and only if there is room for the request
      anywhere in unmapped memory, and the spot is such a room. */
  lemma FirstSpotIsExact(map_: seq<RegionInfo>, q: Request, info: SysInfo)
    requires RequestOk(q, info) && MapOk(map_)
    ensures
      var spot := FirstRoom(map_, q, info);
      && (spot.Some? ==> IsRoom(spot.value, map_, q, info))
      && (spot.None? ==> forall region :: !IsRoom(region, map_, q, info))
  {
    LowestSpotIsInRange(q, info);
    if FirstRoom(map_, q, info).Some? {
      SpotIsUnmapped(map_, LowestSpot(q, info), q, info);
    } else {
      forall region ensures !IsRoom(region, map_, q, info) {
        if IsRoom(region, map_, q, info) {
          UnmappedRoomMeansSpot(map_, q, info, region);
        }
      }
    }
  }

  lemma UnmappedRoomMeansSpot(map_: seq<RegionInfo>, q: Request, info: SysInfo, region: Range)
    requires RequestOk(q, info) && MapOk(map_)
    requires info.minAddress <= region.start && region.end <= info.maxAddress
    requires Serves(region, q, info) && Unmapped(region, map_)
    ensures FirstRoom(map_, q, info).Some?
  {
    var start := LowestSpot(q, info);
    LowestSpotIsInRange(q, info);
    IterTilesAddressSpace(map_, start, info);
    var tiles := TilesFrom(map_, start, info);
    var p :| HoldsAt(region, q, p);
    var i := TileAt(tiles, p);
    RegionIsInTile(map_, start, info, tiles, i, region, p);
    RoomMeansSpot(tiles[i], q, info, region);
    if FirstSpot(tiles, q, info).None? {
      NoFirstSpotMeansNoSpot(tiles, q, info, i);
    }
  }

  lemma SpotIsUnmapped(map_: seq<RegionInfo>, start: nat, q: Request, info: SysInfo)
    requires RequestOk(q, info) && MapOk(map_) && info.minAddress <= start
    requires FirstSpot(TilesFrom(map_, start, info), q, info).Some?
    ensures
      var spot := FirstSpot(TilesFrom(map_, start, info), q, info).value;
      Serves(spot, q, info) && Unmapped(spot, map_) && LowestSpot(q, info) <= spot.start && spot.end <= info.maxAddress
  {
    var tiles := TilesFrom(map_, start, info);
    IterTilesAddressSpace(map_, start, info);
    var i := FirstSpotIsASpot(tiles, q, info);
    assert tiles[i] in tiles;
    SpotServes(tiles[i], q, info);
  }

  // An unmapped region lies in one unmapped tile: around it there is only mapped memory,
  // or the ends of the walk.
  lemma RegionIsInTile(map_: seq<RegionInfo>, start: nat, info: SysInfo, tiles: seq<Tile>, i: nat, region: Range, p: int)
    requires MapOk(map_) && Tiling(map_, start, info, tiles) && Unmapped(region, map_)
    requires info.minAddress <= region.start <= p < region.end <= info.maxAddress
    requires i < |tiles| && tiles[i].start <= p < tiles[i].end
    ensures tiles[i].prot.None? && tiles[i].start <= region.start && region.end <= tiles[i].end
  {
    if tiles[i].prot.Some? {
      MappedTileMeets(map_, start, info, tiles, i, region);
    }
    if i + 1 < |tiles| && tiles[i + 1].prot.Some? {
      MappedTileMeets(map_, start, info, tiles, i + 1, region);
    }
    if i > 0 {
      MappedTileMeets(map_, start, info, tiles, i - 1, region);
    } else if tiles[0].start != info.minAddress {
      var r :| r in map_ && r.end == tiles[0].start;
    }
  }

  lemma MappedTileMeets(map_: seq<RegionInfo>, start: nat, info: SysInfo, tiles: seq<Tile>, i: nat, region: Range)
    requires Tiling(map_, start, info, tiles) && Unmapped(region, map_) && i < |tiles| && tiles[i].prot.Some?
    ensures tiles[i].end > start
    ensures region.end <= tiles[i].start || tiles[i].end <= region.start
  {
    MappedTileIsMapped(tiles, i);
  }

  // `cur_alloc_addr` in front of the k-th tile of a pass.
  function Passed(tiles: seq<Tile>, start: nat, k: nat, info: SysInfo): int
    requires info.granularity > 0 && k <= |tiles|
  {
    if k == 0 then start else RoundUp(tiles[k - 1].end, info.granularity)
  }

  // How many tiles are passed before the first spot.
  function SpotIndex(tiles: seq<Tile>, q: Request, info: SysInfo): (i: nat)
    requires info.granularity > 0
    ensures i <= |tiles| && (FirstSpot(tiles, q, info).Some? ==> i < |tiles| && Spot(tiles[i], q, info) == FirstSpot(tiles, q, info))
  {
    if tiles == [] || Spot(tiles[0], q, info).Some? || RoundUp(tiles[0].end, info.granularity) >= HighestEnd(q, info) then 0
    else 1 + SpotIndex(tiles[1..], q, info)
  }

  // `cur_alloc_addr` when the pass has found its spot.
  ghost function StoppedAt(map_: seq<RegionInfo>, start: nat, q: Request, info: SysInfo): int
    requires info.granularity > 0 && MapOk(map_)
  {
    var tiles := TilesFrom(map_, start, info);
    Passed(tiles, start, SpotIndex(tiles, q, info), info)
  }

  lemma StopsAfterStart(map_: seq<RegionInfo>, start: nat, q: Request, info: SysInfo)
    requires RequestOk(q, info) && MapOk(map_) && info.minAddress <= start
    requires FirstSpot(TilesFrom(map_, start, info), q, info).Some?
    ensures StoppedAt(map_, start, q, info) >= start
  {
    PassedIsAfterStart(map_, start, info, SpotIndex(TilesFrom(map_, start, info), q, info));
  }

  lemma PassedIsAfterStart(map_: seq<RegionInfo>, start: nat, info: SysInfo, k: nat)
    requires SysInfoOk(info) && MapOk(map_) && info.minAddress <= start && k < |TilesFrom(map_, start, info)|
    requires TilesFrom(map_, start, info)[k].prot.None?
    ensures Passed(TilesFrom(map_, start, info), start, k, info) >= start
  {
    var tiles := TilesFrom(map_, start, info);
    IterTilesAddressSpace(map_, start, info);
    if k > 0 {
      MappedTileIsMapped(tiles, k - 1);
      RoundUpIsLeast(tiles[k - 1].end, info.granularity);
    }
  }

  // The search has come to the k-th tile.
  ghost predicate Reaches(tiles: seq<Tile>, k: nat, q: Request, info: SysInfo) {
    && info.granularity > 0 && k <= |tiles|
    && FirstSpot(tiles, q, info) == FirstSpot(tiles[k..], q, info)
    && SpotIndex(tiles, q, info) == k + SpotIndex(tiles[k..], q, info)
  }

  lemma SearchBegins(tiles: seq<Tile>, q: Request, info: SysInfo)
    requires info.granularity > 0
    ensures Reaches(tiles, 0, q, info)
  {
    assert tiles[0..] == tiles;
  }

  // There it ends, or it goes on to the next one.
  lemma SearchStep(tiles: seq<Tile>, k: nat, q: Request, info: SysInfo)
    requires Reaches(tiles, k, q, info)
    ensures k == |tiles| ==> FirstSpot(tiles, q, info) == None
    ensures k < |tiles| ==>
              if Spot(tiles[k], q, info).Some? then FirstSpot(tiles, q, info) == Spot(tiles[k], q, info) && SpotIndex(tiles, q, info) == k
              else if RoundUp(tiles[k].end, info.granularity) >= HighestEnd(q, info) then FirstSpot(tiles, q, info) == None
              else Reaches(tiles, k + 1, q, info)
  {
    if k < |tiles| {
      assert tiles[k..][1..] == tiles[k + 1..];
    }
  }

  method RoomIn(tile: Tile, q: Request, info: SysInfo) returns (room: Option<Range>)
    requires info.granularity > 0
    ensures room == Spot(tile, q, info)
  {
    if tile.prot.None? {
      var min := Max(RoundUp(tile.start, info.granularity), LowestSpot(q, info));
      if min <= q.maxAddr {
        var max := RoundUp(Max(min, q.minAddr) + q.size, info.granularity);
        if max <= tile.end {
          return Some(Range(min, max));
        }
      }
    }
    room := None;
  }

  // The inner loop: walks the tiles from `start` to the first one with room.
  method WalkPass(map_: seq<RegionInfo>, start: nat, q: Request, info: SysInfo)
      returns (found: bool, spot: Range, cur: int)
    requires RequestOk(q, info) && MapOk(map_) && info.minAddress <= start
    ensures FirstSpot(TilesFrom(map_, start, info), q, info) == if found then Some(spot) else None
    ensures found ==> cur == StoppedAt(map_, start, q, info)
  {
    var maxAlloc := HighestEnd(q, info);
    var iter := new RegionIter(map_, start, info);
    ghost var all := iter.Remaining();
    ghost var k := 0;
    SearchBegins(all, q, info);
    found, spot, cur := false, Range(0, 0), start;
    while true
      invariant k <= |all| && iter.Remaining() == all[k..]
      invariant Reaches(all, k, q, info)
      invariant cur == Passed(all, start, k, info)
      decreases |all| - k
    {
      SearchStep(all, k, q, info);
      var next := iter.Next();
      if next.None? {
        return;
      }
      var tile := next.value;
      assert all[k..][0] == tile && all[k..][1..] == all[k + 1..];
      var room := RoomIn(tile, q, info);
      if room.Some? {
        found, spot := true, room.value;
        return;
      }
      // Nothing in this tile; a restart begins behind it.
      cur := RoundUp(tile.end, info.granularity);
      if cur >= maxAlloc {
        return;
      }
      k := k + 1;
    }
  }

  ghost predicate PassesOk(passes: seq<Pass>) {
    forall pass :: pass in passes ==> MapOk(pass.map_)
  }

  // Where a pass stops: its spot, and `cur_alloc_addr` at that moment.
  datatype Stop = Stop(spot: Range, at: nat)

  ghost function Search(map_: seq<RegionInfo>, cur: nat, q: Request, info: SysInfo): Option<Stop> {
    if RequestOk(q, info) && MapOk(map_) && info.minAddress <= cur && FirstSpot(TilesFrom(map_, cur, info), q, info).Some? then
      StopsAfterStart(map_, cur, q, info);
      Some(Stop(FirstSpot(TilesFrom(map_, cur, info), q, info).value, StoppedAt(map_, cur, q, info)))
    else None
  }

  ghost function SearchFor(q: Request, info: SysInfo): (seq<RegionInfo>, nat) -> Option<Stop> {
    (map_: seq<RegionInfo>, cur: nat) => Search(map_, cur, q, info)
  }

  ghost predicate IsSearch(search: (seq<RegionInfo>, nat) -> Option<Stop>, q: Request, info: SysInfo) {
    forall map_, cur: nat {:trigger Search(map_, cur, q, info)} :: search(map_, cur) == Search(map_, cur, q, info)
  }

  // The reply after restarts: each refusal starts over one step behind the stop.
  function ReplyFrom(passes: seq<Pass>, cur: nat, step: nat, search: (seq<RegionInfo>, nat) -> Option<Stop>): Reply {
    if passes == [] then OutOfPasses
    else
      match search(passes[0].map_, cur)
      case None => NoRoom
      case Some(stop) =>
        match passes[0].answer
        case Granted => Got(stop.spot)
        case Failed => OsError
        case Taken => ReplyFrom(passes[1..], stop.at + step, step, search)
  }

  /** The spot is the lowest room that begins at the lowest spot asked for or above, and no
      larger than it has to be. */
  lemma FirstRoomIsLowest(map_: seq<RegionInfo>, q: Request, info: SysInfo, region: Range)
    requires RequestOk(q, info) && MapOk(map_) && IsRoom(region, map_, q, info) && LowestSpot(q, info) <= region.start
    ensures
      var spot := FirstRoom(map_, q, info);
      spot.Some? && spot.value.start <= region.start && spot.value.end <= region.end
  {
    var start := LowestSpot(q, info);
    LowestSpotIsInRange(q, info);
    IterTilesAddressSpace(map_, start, info);
    var tiles := TilesFrom(map_, start, info);
    var p :| HoldsAt(region, q, p);
    var i := TileAt(tiles, p);
    RegionIsInTile(map_, start, info, tiles, i, region, p);
    UnmappedRoomMeansSpot(map_, q, info, region);
    FirstSpotIsLowest(tiles, q, info, i, region);
  }

  lemma FirstSpotIsLowest(tiles: seq<Tile>, q: Request, info: SysInfo, i: nat, region: Range)
    requires RequestOk(q, info) && Gapless(tiles) && i < |tiles| && tiles[i].prot.None? && FirstSpot(tiles, q, info).Some?
    requires Serves(region, q, info) && LowestSpot(q, info) <= region.start
    requires tiles[i].start <= region.start && region.end <= tiles[i].end
    ensures
      var spot := FirstSpot(tiles, q, info).value;
      spot.start <= region.start && spot.end <= region.end
  {
    RoomMeansSpot(tiles[i], q, info, region);
    SpotIsSmallest(tiles[i], q, info, region);
    NoSpotBefore(tiles, q, info, i);
    var k := SpotIndex(tiles, q, info);
    if k < i {
      TilesAscend(tiles, k, i);
      SpotServes(tiles[k], q, info);
    }
  }

  lemma {:induction false} NoSpotBefore(tiles: seq<Tile>, q: Request, info: SysInfo, i: nat)
    requires info.granularity > 0 && i < |tiles| && FirstSpot(tiles, q, info).Some? && Spot(tiles[i], q, info).Some?
    ensures SpotIndex(tiles, q, info) <= i
  {
    if Spot(tiles[0], q, info).None? {
      NoSpotBefore(tiles[1..], q, info, i - 1);
    }
  }

  lemma SpotIsSmallest(t: Tile, q: Request, info: SysInfo, region: Range)
    requires RequestOk(q, info) && Spot(t, q, info).Some?
    requires Serves(region, q, info) && t.start <= region.start && LowestSpot(q, info) <= region.start
    ensures Spot(t, q, info).value.start <= region.start && Spot(t, q, info).value.end <= region.end
  {
    var p :| HoldsAt(region, q, p);
    var min := Max(RoundUp(t.start, info.granularity), LowestSpot(q, info));
    RoundUpIsLeast(t.start, info.granularity);
    RoundUpIsLeast(Max(min, q.minAddr) + q.size, info.granularity);
  }

  ghost function ReplyBetween(q: Request, info: SysInfo, passes: seq<Pass>): Reply
    requires SysInfoOk(info) && info.minAddress <= q.minAddr
  {
    LowestSpotIsInRange(q, info);
    if q.minAddr > q.maxAddr then NoRoom
    else ReplyFrom(passes, LowestSpot(q, info), info.granularity, SearchFor(q, info))
  }

  lemma GotServes(q: Request, info: SysInfo, passes: seq<Pass>)
    requires SysInfoOk(info) && info.minAddress <= q.minAddr && PassesOk(passes) && ReplyBetween(q, info, passes).Got?
    ensures
      var region := ReplyBetween(q, info, passes).region;
      && q.minAddr <= q.maxAddr && Serves(region, q, info)
      && LowestSpot(q, info) <= region.start && region.end <= info.maxAddress
      && exists pass :: pass in passes && pass.answer.Granted? && Unmapped(region, pass.map_)
  {
    LowestSpotIsInRange(q, info);
    var pass, c := GrantedIsOffered(passes, LowestSpot(q, info), info.granularity, SearchFor(q, info));
    OfferServes(pass.map_, c, q, info);
  }

  /** A single pass whose spot is granted answers a region exactly if unmapped memory has
      room for the request anywhere. */
  lemma GrantedIfThereIsRoom(q: Request, info: SysInfo, map_: seq<RegionInfo>)
    requires RequestOk(q, info) && MapOk(map_)
    ensures
      var reply := ReplyBetween(q, info, [Pass(map_, Granted)]);
      if exists region :: IsRoom(region, map_, q, info) then reply.Got? && IsRoom(reply.region, map_, q, info) else reply == NoRoom
  {
    LowestSpotIsInRange(q, info);
    FirstSpotIsExact(map_, q, info);
  }

  /** `alloc_between`. The passes stand for the successive memory maps and the kernel's
      answers; the number of restarts is bounded by their number. */
  method AllocBetween(q: Request, info: SysInfo, passes: seq<Pass>) returns (reply: Reply)
    requires SysInfoOk(info) && info.minAddress <= q.minAddr && q.size > 0
    requires q.minAddr <= q.maxAddr ==> q.maxAddr + q.size <= info.maxAddress
    requires PassesOk(passes)
    ensures reply.Got? ==>
              && q.minAddr <= q.maxAddr && Serves(reply.region, q, info)
              && LowestSpot(q, info) <= reply.region.start && reply.region.end <= info.maxAddress
              && exists pass :: pass in passes && pass.answer.Granted? && Unmapped(reply.region, pass.map_)
    ensures reply == ReplyBetween(q, info, passes)
  {
    if q.minAddr > q.maxAddr {
      return NoRoom;
    }
    LowestSpotIsInRange(q, info);
    reply := SearchFrom(q, info, passes, SearchFor(q, info));
    if reply.Got? {
      GotServes(q, info, passes);
    }
  }

  // The outer loop.
  method SearchFrom(q: Request, info: SysInfo, passes: seq<Pass>, ghost search: (seq<RegionInfo>, nat) -> Option<Stop>)
      returns (reply: Reply)
    requires RequestOk(q, info) && PassesOk(passes) && info.minAddress <= LowestSpot(q, info) && IsSearch(search, q, info)
    ensures reply == ReplyFrom(passes, LowestSpot(q, info), info.granularity, search)
  {
    var cur: nat := LowestSpot(q, info);
    var n := 0;
    assert passes[0..] == passes;
    while n < |passes|
      invariant n <= |passes| && info.minAddress <= cur
      invariant ReplyFrom(passes, LowestSpot(q, info), info.granularity, search) == ReplyFrom(passes[n..], cur, info.granularity, search)
    {
      var pass := passes[n];
      assert pass in passes && passes[n..][1..] == passes[n + 1..];
      var found, spot, last := OnePass(pass.map_, cur, q, info, search);
      if !found {
        return NoRoom;
      }
      match pass.answer {
        case Granted => return Got(spot);
        case Failed => return OsError;
        case Taken =>
          // Taken by someone else: start over one step further on.
          cur := last + info.granularity;
      }
      n := n + 1;
    }
    reply := OutOfPasses;
  }

  method OnePass(map_: seq<RegionInfo>, start: nat, q: Request, info: SysInfo,
                 ghost search: (seq<RegionInfo>, nat) -> Option<Stop>)
      returns (found: bool, spot: Range, cur: nat)
    requires RequestOk(q, info) && MapOk(map_) && info.minAddress <= start && IsSearch(search, q, info)
    ensures search(map_, start) == if found then Some(Stop(spot, cur)) else None
    ensures found ==> cur >= start
  {
    var last;
    found, spot, last := WalkPass(map_, start, q, info);
    assert search(map_, start) == Search(map_, start, q, info);
    if found {
      StopsAfterStart(map_, start, q, info);
      cur := last;
    } else {
      cur := start;
    }
  }

  // A region that was granted was the spot of some pass.
  lemma {:induction false} GrantedIsOffered(
    passes: seq<Pass>, cur: nat, step: nat, search: (seq<RegionInfo>, nat) -> Option<Stop>) returns (pass: Pass, c: nat)
    requires ReplyFrom(passes, cur, step, search).Got?
    ensures pass in passes && pass.answer.Granted? && search(pass.map_, c).Some?
    ensures search(pass.map_, c).value.spot == ReplyFrom(passes, cur, step, search).region
  {
    pass, c := passes[0], cur;
    if pass.answer.Taken? {
      pass, c := GrantedIsOffered(passes[1..], search(pass.map_, c).value.at + step, step, search);
    }
  }

  lemma OfferServes(map_: seq<RegionInfo>, cur: nat, q: Request, info: SysInfo)
    requires Search(map_, cur, q, info).Some?
    ensures info.granularity > 0
    ensures
      var spot := Search(map_, cur, q, info).value.spot;
      && Serves(spot, q, info) && Unmapped(spot, map_)
      && LowestSpot(q, info) <= spot.start && spot.end <= info.maxAddress
  {
    SpotIsUnmapped(map_, cur, q, info);
  }

  // ----- restarting

  // How many regions of the map end after an address.
  ghost function RegionsBehind(map_: seq<RegionInfo>, start: nat, info: SysInfo): nat {
    EndingAfter(Reversed(Kept(map_, info.maxAddress)), start)
  }

  /** The step of a restart does not lead to another spot of the same gap: from any two
      addresses with the same regions behind them the search finds the same spot. */
  lemma SameGapOffersSameSpot(map_: seq<RegionInfo>, a: nat, b: nat, q: Request, info: SysInfo)
    requires info.granularity > 0 && MapOk(map_) && RegionsBehind(map_, a, info) == RegionsBehind(map_, b, info)
    ensures FirstSpot(TilesFrom(map_, a, info), q, info) == FirstSpot(TilesFrom(map_, b, info), q, info)
  {
  }

  lemma NothingBehindStays(map_: seq<RegionInfo>, a: nat, b: nat, info: SysInfo)
    requires a <= b && RegionsBehind(map_, a, info) == 0
    ensures RegionsBehind(map_, b, info) == 0
  {
  }

  // If every stop leads to another one and all are refused, the search never ends.
  lemma {:induction false} RefusedForever(
    passes: seq<Pass>, map_: seq<RegionInfo>, cur: nat, step: nat, search: (seq<RegionInfo>, nat) -> Option<Stop>, stuck: nat -> bool)
    requires forall pass :: pass in passes ==> pass == Pass(map_, Taken)
    requires stuck(cur)
    requires forall c :: stuck(c) ==> search(map_, c).Some? && stuck(search(map_, c).value.at + step)
    ensures ReplyFrom(passes, cur, step, search) == OutOfPasses
    decreases |passes|
  {
    if passes != [] {
      assert passes[0] in passes && forall pass :: pass in passes[1..] ==> pass in passes;
      assert stuck(search(map_, cur).value.at + step);
      RefusedForever(passes[1..], map_, search(map_, cur).value.at + step, step, search, stuck);
    }
  }

  /** In the last gap, behind all regions, the refused spot is the only one ever tried: as
      long as the map stays as it is and the kernel refuses, the search goes on for ever. */
  lemma LastGapIsRetriedForever(passes: seq<Pass>, map_: seq<RegionInfo>, cur: nat, q: Request, info: SysInfo)
    requires RequestOk(q, info) && info.minAddress <= cur && MapOk(map_)
    requires forall pass :: pass in passes ==> pass == Pass(map_, Taken)
    requires RegionsBehind(map_, cur, info) == 0 && Search(map_, cur, q, info).Some?
    ensures ReplyFrom(passes, cur, info.granularity, SearchFor(q, info)) == OutOfPasses
  {
    var stuck := (c: nat) => info.minAddress <= c && RegionsBehind(map_, c, info) == 0 && Search(map_, c, q, info).Some?;
    var search := SearchFor(q, info);
    forall c: nat | stuck(c) ensures search(map_, c).Some? && stuck(search(map_, c).value.at + info.granularity) {
      LastGapOffersAgain(map_, c, q, info);
    }
    RefusedForever(passes, map_, cur, info.granularity, search, stuck);
  }

  lemma LastGapOffersAgain(map_: seq<RegionInfo>, cur: nat, q: Request, info: SysInfo)
    requires RequestOk(q, info) && info.minAddress <= cur && MapOk(map_)
    requires RegionsBehind(map_, cur, info) == 0 && Search(map_, cur, q, info).Some?
    ensures
      var stop := Search(map_, cur, q, info).value;
      var next := stop.at + info.granularity;
      && cur <= next && RegionsBehind(map_, next, info) == 0
      && Search(map_, next, q, info).Some? && Search(map_, next, q, info).value.spot == stop.spot
  {
    var next := Search(map_, cur, q, info).value.at + info.granularity;
    StopsAfterStart(map_, cur, q, info);
    NothingBehindStays(map_, cur, next, info);
    SameGapOffersSameSpot(map_, cur, next, q, info);
  }

  /** An input: in an empty map eight pages could serve the request, and however often the
      first of them is refused, no other one is tried. */
  lemma OtherPagesAreNeverTried(passes: seq<Pass>)
    requires forall pass :: pass in passes ==> pass == Pass([], Taken)
    ensures
      var (info, q) := (SysInfo(0x1000, 0x1000, 0x10000), Request(0x1000, 0x8000, 1));
      && RequestOk(q, info) && MapOk([])
      && FirstRoom([], q, info) == Some(Range(0x1000, 0x2000)) && IsRoom(Range(0x2000, 0x3000), [], q, info)
      && ReplyFrom(passes, 0x1000, info.granularity, SearchFor(q, info)) == OutOfPasses
  {
    var (info, q) := (SysInfo(0x1000, 0x1000, 0x10000), Request(0x1000, 0x8000, 1));
    assert HoldsAt(Range(0x2000, 0x3000), q, 0x2000);
    EmptyMapOffersFirstPage();
    LastGapIsRetriedForever(passes, [], 0x1000, q, info);
  }

  lemma EmptyMapOffersFirstPage()
    ensures
      var (info, q) := (SysInfo(0x1000, 0x1000, 0x10000), Request(0x1000, 0x8000, 1));
      && FirstSpot(TilesFrom([], 0x1000, info), q, info) == Some(Range(0x1000, 0x2000))
      && RegionsBehind([], 0x1000, info) == 0
  {
  }
}
