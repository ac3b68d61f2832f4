/** The 5-byte relative jump written over a function's first bytes, and the shortened
    form that overwrites only the first instruction by reusing the bytes behind it as
    the high bytes of its displacement. */
module ShortJump {
  import opened Results
  import opened Rounding
  import opened Ranges
  import opened RangeHeap
  import opened RangeAllocator

  type byte = x: int | 0 <= x < 256

  const JMP_LEN: nat := 5
  const DISASM_LEN: nat := 19   // four bytes and the longest instruction
  const CMPXCHG_LEN: nat := 8
  const JMP_OPCODE: byte := 0xe9
  const I32_MIN: int := -0x8000_0000
  const I32_MAX: int := 0x7fff_ffff

  // ----- little-endian i32

  function SignedTop(b: byte): int {
    if b >= 128 then b - 256 else b
  }

  function FromLe(b: seq<byte>): int
    requires |b| == 4
  {
    b[0] + 0x100 * b[1] + 0x1_0000 * b[2] + 0x100_0000 * SignedTop(b[3])
  }

  function ToLe(d: int): seq<byte>
    requires I32_MIN <= d <= I32_MAX
  {
    [d % 0x100, d / 0x100 % 0x100, d / 0x1_0000 % 0x100, d / 0x100_0000 % 0x100]
  }

  /** The two conversions are inverse to each other. */
  lemma LeRoundTrips(d: int, b: seq<byte>)
    requires I32_MIN <= d <= I32_MAX && |b| == 4
    ensures FromLe(ToLe(d)) == d
    ensures I32_MIN <= FromLe(b) <= I32_MAX && ToLe(FromLe(b)) == b
    ensures FromLe([0x78, 0x56, 0x34, 0x12]) == 0x1234_5678 && FromLe([0xfe, 0xff, 0xff, 0xff]) == -2
  {
    ValueOfBytes(d);
    BytesOfValue(b);
  }

  lemma ValueOfBytes(d: int)
    requires I32_MIN <= d <= I32_MAX
    ensures FromLe(ToLe(d)) == d
  {
    NestedParts(d);
    var (d1, d2, d3) := (d / 0x100, d / 0x100 / 0x100, d / 0x100 / 0x100 / 0x100);
    HighAndLow(d);
    HighAndLow(d1);
    HighAndLow(d2);
    TopByte(d3, d3 % 0x100);
    AssembledFrom(d, d1, d2, d3);
  }

  lemma HighAndLow(x: int)
    ensures x == 0x100 * (x / 0x100) + x % 0x100 && 0 <= x % 0x100 < 0x100
  {
  }

  lemma AssembledFrom(d: int, d1: int, d2: int, d3: int)
    requires I32_MIN <= d <= I32_MAX
    requires d1 == d / 0x100 && d2 == d / 0x1_0000 && d3 == d / 0x100_0000
    requires d == 0x100 * d1 + d % 0x100 && d1 == 0x100 * d2 + d1 % 0x100 && d2 == 0x100 * d3 + d2 % 0x100
    requires SignedTop(d3 % 0x100) == d3
    ensures FromLe(ToLe(d)) == d
  {
  }

  lemma BytesOfValue(b: seq<byte>)
    requires |b| == 4
    ensures I32_MIN <= FromLe(b) <= I32_MAX && ToLe(FromLe(b)) == b
  {
    var v, top := FromLe(b), SignedTop(b[3]);
    SplitByte(v, b[1] + 0x100 * b[2] + 0x1_0000 * top, b[0]);
    SplitByte(b[1] + 0x100 * b[2] + 0x1_0000 * top, b[2] + 0x100 * top, b[1]);
    SplitByte(b[2] + 0x100 * top, top, b[2]);
    TopByte(top, b[3]);
    NestedParts(v);
  }

  // ----- the range of displacements a short jump can have

  // Displacement byte `i - 1` stands at site byte `i`.
  predicate MatchesSite(d: int, site: seq<byte>, len: nat)
    requires I32_MIN <= d <= I32_MAX && |site| == DISASM_LEN
  {
    forall i :: len <= i < JMP_LEN && 1 <= i ==> ToLe(d)[i - 1] == site[i]
  }

  function FilledBytes(free: seq<byte>, site: seq<byte>, len: nat): seq<byte>
    requires |free| == 4 && |site| == DISASM_LEN && len > 0
  {
    seq(4, i requires 0 <= i < 4 => if i + 1 >= len then site[i + 1] else free[i])
  }

  const MIN_BYTES: seq<byte> := [0, 0, 0, 0x80]          // i32::MIN.to_le_bytes()
  const MAX_BYTES: seq<byte> := [0xff, 0xff, 0xff, 0x7f]   // i32::MAX.to_le_bytes()

  // Lowest and highest offset from the jump's own address, inclusive.
  function MinOffset(site: seq<byte>, len: nat): int
    requires |site| == DISASM_LEN && len > 0
  {
    FromLe(FilledBytes(MIN_BYTES, site, len)) + JMP_LEN
  }

  function MaxOffset(site: seq<byte>, len: nat): int
    requires |site| == DISASM_LEN && len > 0
  {
    FromLe(FilledBytes(MAX_BYTES, site, len)) + JMP_LEN
  }

  /** `short_encoding_range`: fills the displacement bytes that lie beyond the first
      instruction from the site. */
  method ShortEncodingRange(site: seq<byte>, len: nat) returns (first: int, last: int)
    requires |site| == DISASM_LEN && len > 0
    ensures first == MinOffset(site, len) && last == MaxOffset(site, len)
    ensures forall d | I32_MIN <= d <= I32_MAX :: first <= d + JMP_LEN <= last <==> MatchesSite(d, site, len)
  {
    var minBytes := new byte[4](i requires 0 <= i < 4 => MIN_BYTES[i]);
    var maxBytes := new byte[4](i requires 0 <= i < 4 => MAX_BYTES[i]);
    var i := len;
    while i < JMP_LEN
      invariant len <= i && (len <= JMP_LEN ==> i <= JMP_LEN)
      invariant forall k :: 0 <= k < 4 ==> minBytes[k] == if len <= k + 1 < i then site[k + 1] else MIN_BYTES[k]
      invariant forall k :: 0 <= k < 4 ==> maxBytes[k] == if len <= k + 1 < i then site[k + 1] else MAX_BYTES[k]
    {
      minBytes[i - 1] := site[i];
      maxBytes[i - 1] := site[i];
      i := i + 1;
    }
    assert minBytes[..] == FilledBytes(MIN_BYTES, site, len);
    assert maxBytes[..] == FilledBytes(MAX_BYTES, site, len);
    first := FromLe(minBytes[..]) + JMP_LEN;
    last := FromLe(maxBytes[..]) + JMP_LEN;
    forall d | I32_MIN <= d <= I32_MAX
      ensures first <= d + JMP_LEN <= last <==> MatchesSite(d, site, len)
    {
      ShortRangeIsExact(d, site, len);
    }
  }

  lemma MatchesByByte(d: int, site: seq<byte>, len: nat)
    requires I32_MIN <= d <= I32_MAX && |site| == DISASM_LEN && len > 0
    ensures MatchesSite(d, site, len) <==>
            && (len <= 1 ==> d % 0x100 == site[1])
            && (len <= 2 ==> d / 0x100 % 0x100 == site[2])
            && (len <= 3 ==> d / 0x1_0000 % 0x100 == site[3])
            && (len <= 4 ==> d / 0x100_0000 % 0x100 == site[4])
  {
  }

  // A number is its top part and its low byte.
  lemma SplitByte(v: int, high: int, low: byte)
    ensures v == 0x100 * high + low <==> v / 0x100 == high && v % 0x100 == low
  {
  }

  lemma NestedParts(d: int)
    ensures d / 0x1_0000 == d / 0x100 / 0x100
    ensures d / 0x100_0000 == d / 0x100 / 0x100 / 0x100
  {
  }

  lemma TopByte(x: int, b: byte)
    requires -128 <= x < 128
    ensures x % 0x100 == b <==> x == SignedTop(b)
  {
  }

  lemma FilledValues(site: seq<byte>, len: nat)
    requires |site| == DISASM_LEN && 0 < len <= 4
    ensures
      var top: int := SignedTop(site[4]);
      var (s1: int, s2: int, s3: int) := (site[1], site[2], site[3]);
      var (lo, hi) := (MinOffset(site, len) - JMP_LEN, MaxOffset(site, len) - JMP_LEN);
      && (len == 4 ==> lo == 0x100_0000 * top && hi == lo + 0xff_ffff)
      && (len == 3 ==> lo == 0x100_0000 * top + 0x1_0000 * s3 && hi == lo + 0xffff)
      && (len == 2 ==> lo == 0x100_0000 * top + 0x1_0000 * s3 + 0x100 * s2 && hi == lo + 0xff)
      && (len == 1 ==> lo == 0x100_0000 * top + 0x1_0000 * s3 + 0x100 * s2 + s1 && hi == lo)
  {
  }

  /** For all site bytes and instruction lengths: a displacement lies in the computed
      range if and only if its bytes beyond the first instruction are the site's own. */
  lemma ShortRangeIsExact(d: int, site: seq<byte>, len: nat)
    requires I32_MIN <= d <= I32_MAX && |site| == DISASM_LEN && len > 0
    ensures MinOffset(site, len) <= d + JMP_LEN <= MaxOffset(site, len) <==> MatchesSite(d, site, len)
  {
    MatchesByByte(d, site, len);
    if len <= 4 {
      var top := SignedTop(site[4]);
      FilledValues(site, len);
      NestedParts(d);
      var (d1, d2, d3) := (d / 0x100, d / 0x100 / 0x100, d / 0x100 / 0x100 / 0x100);
      TopByte(d3, site[4]);
      SplitByte(d2, top, site[3]);
      SplitByte(d1, 0x100 * top + site[3], site[2]);
      SplitByte(d, 0x1_0000 * top + 0x100 * site[3] + site[2], site[1]);
    }
  }

  /** Once the first instruction holds the whole jump, every displacement is allowed. */
  lemma LongInstructionAllowsAll(site: seq<byte>, len: nat)
    requires |site| == DISASM_LEN && len >= JMP_LEN
    ensures MinOffset(site, len) == I32_MIN + JMP_LEN && MaxOffset(site, len) == I32_MAX + JMP_LEN
  {
  }

  // ----- encoding the jump and patching the site

  function AsIsize(addr: Usize): int {
    if addr <= ISIZE_MAX then addr else addr - 0x1_0000_0000_0000_0000
  }

  // `disp32_between`; None where the conversion panics.
  function Disp32Between(ip: Usize, target: Usize): Option<int> {
    var d := AsIsize(target) - AsIsize(ip);
    if I32_MIN <= d <= I32_MAX then Some(d) else None
  }

  // `JmpRel::encode`; None where it panics.
  function Encode(site: Usize, thunk: Usize): Option<seq<byte>> {
    if site + JMP_LEN > USIZE_MAX then None
    else
      match Disp32Between(site + JMP_LEN, thunk)
      case Some(d) => Some([JMP_OPCODE] + ToLe(d))
      case None => None
  }

  // Where the processor goes on after the instruction at `addr`, if it is a JMP rel32: the
  // byte 0xe9 and four displacement bytes, counted from the next instruction on (Intel SDM
  // volume 2A, JMP).
  function JumpTarget(addr: int, code: seq<byte>): Option<int> {
    if |code| >= 5 && code[0] == 0xe9 then Some(addr + 5 + FromLe(code[1..5])) else None
  }

  // The 8-byte word `detour` exchanges in.
  function PatchedWord(site: seq<byte>, jmp: seq<byte>): seq<byte>
    requires |site| == DISASM_LEN && |jmp| == JMP_LEN
  {
    jmp + site[JMP_LEN..CMPXCHG_LEN]
  }

  /** `detour`: one compare-and-exchange of the 8 bytes at the target, if they are still
      the ones that were analyzed; nothing else is written. */
  method Detour(code: array<byte>, at: nat, site: seq<byte>, jmp: seq<byte>) returns (patched: bool)
    requires |site| == DISASM_LEN && |jmp| == JMP_LEN && at + CMPXCHG_LEN <= code.Length
    modifies code
    ensures patched <==> old(code[at..at + CMPXCHG_LEN]) == site[..CMPXCHG_LEN]
    ensures !patched ==> code[..] == old(code[..])
    ensures patched ==> code[..] == old(code[..at]) + jmp + old(code[at + JMP_LEN..])
  {
    var word := PatchedWord(site, jmp);
    patched := code[at..at + CMPXCHG_LEN] == site[..CMPXCHG_LEN];
    if patched {
      forall i | 0 <= i < CMPXCHG_LEN {
        code[at + i] := word[i];
      }
      assert forall i :: JMP_LEN <= i < CMPXCHG_LEN ==> site[i] == site[..CMPXCHG_LEN][i] == old(code[at..at + CMPXCHG_LEN])[i];
    }
  }

  /** For any thunk at an allowed offset, encoding does not panic, the jump lands on the
      thunk, and the exchanged word differs from the site only in bytes of the first
      instruction. */
  lemma ShortJumpPatchesOneInstruction(target: Usize, site: seq<byte>, len: nat, thunk: Usize)
    requires |site| == DISASM_LEN && len > 0
    requires target + JMP_LEN <= ISIZE_MAX && thunk <= ISIZE_MAX
    requires MinOffset(site, len) <= thunk - target <= MaxOffset(site, len)
    ensures
      var jmp := Encode(target, thunk);
      && jmp.Some? && |jmp.value| == JMP_LEN
      && JumpTarget(target, jmp.value) == Some(thunk)
      && JumpTarget(target, PatchedWord(site, jmp.value)) == Some(thunk)
      && forall i :: len <= i < CMPXCHG_LEN ==> PatchedWord(site, jmp.value)[i] == site[i]
  {
    var d := thunk - (target + JMP_LEN);
    LeRoundTrips(d, FilledBytes(MIN_BYTES, site, len));
    LeRoundTrips(d, FilledBytes(MAX_BYTES, site, len));
    ShortRangeIsExact(d, site, len);
    LeRoundTrips(d, ToLe(d));
    var jmp := [JMP_OPCODE] + ToLe(d);
    assert jmp[1..5] == ToLe(d);
    assert PatchedWord(site, jmp)[1..5] == ToLe(d);
    forall i | len <= i < CMPXCHG_LEN ensures PatchedWord(site, jmp)[i] == site[i] {
      if i < JMP_LEN { assert ToLe(d)[i - 1] == site[i]; }
    }
  }

  /** Hence whatever block the allocator answers for the short range, the fast
      installation can encode its jump and overwrites nothing but the first instruction. */
  lemma AllocatedThunkIsReachable(h: Heap, l: Layout, target: Usize, site: seq<byte>, len: nat, spot: Spot)
    requires HeapOk(h) && LayoutOk(l) && l.size > 0
    requires |site| == DISASM_LEN && len > 0 && target + JMP_LEN <= ISIZE_MAX
    requires PlanInside(h, l, target, Included(MinOffset(site, len)), Included(MaxOffset(site, len))) == Found(spot)
    ensures 0 <= spot.addr <= ISIZE_MAX
    ensures
      var jmp := Encode(target, spot.addr);
      && jmp.Some? && |jmp.value| == JMP_LEN
      && JumpTarget(target, PatchedWord(site, jmp.value)) == Some(spot.addr)
      && forall i :: len <= i < CMPXCHG_LEN ==> PatchedWord(site, jmp.value)[i] == site[i]
  {
    AllocNearIsExact(h, l, target, Included(MinOffset(site, len)), Included(MaxOffset(site, len)));
    assert h.ranges[spot.index] in h.ranges;
    ShortJumpPatchesOneInstruction(target, site, len, spot.addr);
  }
}
