/** A growable vector over raw memory from the kernel. The element type's size and
    alignment, and the address of each new mapping, are parameters. */
module PodVectors {
  import opened Rounding

  function RawLenForGrow(cap: nat, size: nat, elemAlign: nat, page: nat): int
    requires page > 0
  {
    var newCap := cap + Max(cap / 2, 1);
    RoundUp(newCap * size + if page < elemAlign then elemAlign - 1 else 0, page)
  }

  // Bytes to skip until an address is a multiple of the element's alignment.
  function AlignOffset(raw: nat, elemAlign: nat): int
    requires elemAlign > 0
  {
    RoundUp(raw, elemAlign) - raw
  }

  function CapAfter(raw: nat, rawLen: int, size: nat, elemAlign: nat): int
    requires elemAlign > 0 && size > 0
  {
    (rawLen - AlignOffset(raw, elemAlign)) / size
  }

  // Pages and alignments are powers of two, so the smaller divides the larger.
  ghost predicate LayoutsOk(size: nat, elemAlign: nat, page: nat) {
    && size > 0 && elemAlign > 0 && page > 0
    && (elemAlign <= page ==> Aligned(page, elemAlign))
  }

  lemma AlignedTransitively(raw: nat, page: nat, elemAlign: nat)
    requires page > 0 && elemAlign > 0 && Aligned(raw, page) && Aligned(page, elemAlign)
    ensures Aligned(raw, elemAlign)
  {
    var k, m := raw / page, page / elemAlign;
    assert raw == (k * m) * elemAlign;
    MultiplesAreAligned(k * m, elemAlign);
  }

  lemma DivisionBounds(a: int, n: int, size: int)
    requires size > 0 && n * size <= a
    ensures n <= a / size && a / size * size <= a
  {
    MultipleBelow(a, size, n);
    DownBounds(a, size);
    if a / size < n {
      ScaleOrder(a / size + 1, n, size);
      Distribute(a / size, size);
    }
  }

  /** Whatever pages the kernel maps, the grown buffer holds half as many elements again
      and always one more, after the bytes lost to alignment; it is aligned and lies
      inside the mapping. */
  lemma GrowthLeavesRoom(cap: nat, size: nat, elemAlign: nat, page: nat, raw: nat)
    requires LayoutsOk(size, elemAlign, page) && Aligned(raw, page)
    ensures
      var rawLen := RawLenForGrow(cap, size, elemAlign, page);
      var offset := AlignOffset(raw, elemAlign);
      var newCap := CapAfter(raw, rawLen, size, elemAlign);
      && cap < cap + Max(cap / 2, 1) <= newCap
      && 0 <= offset && offset + newCap * size <= rawLen
      && Aligned(raw + offset, elemAlign)
  {
    var want := cap + Max(cap / 2, 1);
    var rawLen := RawLenForGrow(cap, size, elemAlign, page);
    RoundUpIsLeast(want * size + if page < elemAlign then elemAlign - 1 else 0, page);
    RoundUpIsLeast(raw, elemAlign);
    if elemAlign <= page {
      AlignedTransitively(raw, page, elemAlign);
    }
    DivisionBounds(rawLen - AlignOffset(raw, elemAlign), want, size);
  }

  class PodVec<T(0)> {
    const size: nat
    const elemAlign: nat
    const page: nat
    var elems: array<T>   // the aligned part of the mapping; its length is the capacity
    var len: nat
    var rawPtr: nat
    var rawLen: nat

    ghost predicate Valid()
      reads this
    {
      && LayoutsOk(size, elemAlign, page)
      && len <= elems.Length
      && 0 <= AlignOffset(rawPtr, elemAlign)
      && AlignOffset(rawPtr, elemAlign) + elems.Length * size <= rawLen
    }

    ghost function Contents(): seq<T>
      reads this, elems
      requires Valid()
    {
      elems[..len]
    }

    constructor (size: nat, elemAlign: nat, page: nat)
      requires LayoutsOk(size, elemAlign, page)
      ensures Valid() && Contents() == [] && fresh(elems)
      ensures this.page == page
    {
      this.size, this.elemAlign, this.page := size, elemAlign, page;
      elems := new T[0];
      len, rawPtr, rawLen := 0, 0, 0;
      new;
      RoundUpIsLeast(0, elemAlign);
    }

    // `raw_ptr_assign`: moves the elements and hands back the old mapping.
    method RawPtrAssign(raw: nat, newLen: nat) returns (oldPtr: nat, oldLen: nat)
      requires Valid() && Aligned(raw, page) && newLen == RawLenForGrow(elems.Length, size, elemAlign, page)
      modifies this
      ensures Valid() && fresh(elems) && Contents() == old(Contents()) && len == old(len)
      ensures elems.Length >= old(elems.Length) + Max(old(elems.Length) / 2, 1)
      ensures oldPtr == old(rawPtr) && oldLen == old(rawLen) && rawPtr == raw && rawLen == newLen
    {
      GrowthLeavesRoom(elems.Length, size, elemAlign, page, raw);
      var moved := new T[CapAfter(raw, newLen, size, elemAlign)];
      forall i | 0 <= i < len {
        moved[i] := elems[i];
      }
      elems := moved;
      oldPtr, oldLen := rawPtr, rawLen;
      rawPtr, rawLen := raw, newLen;
    }

    // `reserve_one`, given where the kernel would map new memory.
    method ReserveOne(mapping: nat)
      requires Valid() && Aligned(mapping, page)
      modifies this
      ensures Valid() && len < elems.Length
      ensures Contents() == old(Contents()) && len == old(len)
      ensures if old(len < elems.Length) then elems == old(elems) else fresh(elems)
    {
      if len == elems.Length {
        GrowthLeavesRoom(elems.Length, size, elemAlign, page, mapping);
        var newLen := RawLenForGrow(elems.Length, size, elemAlign, page);
        var oldPtr, oldLen := RawPtrAssign(mapping, newLen);
      }
    }

    /** `insert`: room for the element is made first, then the tail moves up by one. */
    method Insert(index: nat, value: T, mapping: nat)
      requires Valid() && index <= len && Aligned(mapping, page)
      modifies this, elems
      ensures Valid()
      ensures Contents() == old(Contents())[..index] + [value] + old(Contents())[index..]
      ensures elems == old(elems) || fresh(elems)
    {
      ReserveOne(mapping);
      InsertShifting(elems, len, index, value);
      len := len + 1;
    }
  }

  // The tail is copied up by one as a whole.
  method InsertShifting<T>(elems: array<T>, len: nat, index: nat, value: T)
    requires index <= len < elems.Length
    modifies elems
    ensures elems[..len + 1] == old(elems[..index]) + [value] + old(elems[index..len])
  {
    forall i | index < i <= len {
      elems[i] := elems[i - 1];
    }
    elems[index] := value;
    assert elems[..len + 1] == elems[..index] + [value] + elems[index + 1..len + 1];
    assert elems[index + 1..len + 1] == old(elems[index..len]);
  }
}
