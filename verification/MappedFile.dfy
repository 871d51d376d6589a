/**
 `mapped_ofile`: random access to a file through one page-aligned mapping that is
 moved, and grown, when a requested window leaves it. The file is a byte sequence;
 an address inside the mapping denotes the file position at the same distance from
 the mapping's base. Where the system puts a mapping is arbitrary.
 */
module MappedFile {
  import opened Wrappers
  import opened Arith

  type byte = bv8

  datatype FileError = InvalidInput | Closed

  /** `x & ~(page_size - 1)` for a power-of-2 page size. */
  function PageFloor(x: nat, pageSize: nat): (p: int)
    requires 0 < pageSize
  {
    x - x % pageSize
  }

  lemma PageFloorIs(x: nat, pageSize: nat)
    requires 0 < pageSize
    ensures 0 <= PageFloor(x, pageSize) <= x < PageFloor(x, pageSize) + pageSize
    ensures PageFloor(x, pageSize) % pageSize == 0
  {
    DivModIs(PageFloor(x, pageSize), x / pageSize, 0, pageSize);
  }

  function Max(a: int, b: int): int {
    if a < b then b else a
  }

  /** The extent that covers a window from wherever in its first page it starts. */
  function SpanOf(position: nat, window: nat, pageSize: nat): int
    requires 0 < pageSize && 0 < window
  {
    pageSize + (PageFloor(position + window - 1, pageSize) - PageFloor(position, pageSize))
  }

  /** Where a mapping is moved to: as far forward, or as far backward, as the window allows. */
  function BaseFor(forward: bool, position: nat, window: nat, extent: int, pageSize: nat): int
    requires 0 < pageSize && 0 < window
  {
    if forward then PageFloor(position, pageSize)
    else Max(0, PageFloor(position + window - 1, pageSize) - extent + pageSize)
  }

  /** The remap arithmetic: page multiples in, a page-aligned mapping around the window out. */
  lemma RemapCovers(forward: bool, position: nat, window: nat, oldExtent: int, pageSize: nat)
    requires 0 < pageSize && 0 < window && 0 <= oldExtent && oldExtent % pageSize == 0
    ensures var extent := Max(SpanOf(position, window, pageSize), oldExtent);
      var base := BaseFor(forward, position, window, extent, pageSize);
      && 0 <= base <= position && position + window <= base + extent
      && base % pageSize == 0 && extent % pageSize == 0 && 0 < extent
  {
    var first, last := PageFloor(position, pageSize), PageFloor(position + window - 1, pageSize);
    PageFloorIs(position, pageSize);
    PageFloorIs(position + window - 1, pageSize);
    if last < first {
      MultiplesApart(last, first, pageSize);
    }
    var extent := Max(SpanOf(position, window, pageSize), oldExtent);
    DivModIs(pageSize, 1, 0, pageSize);
    DivModIs(0, 0, 0, pageSize);
    MultiplesAdd(last, first, pageSize);
    MultiplesAdd(pageSize, last - first, pageSize);
    MultiplesAdd(last, extent, pageSize);
    MultiplesAdd(last - extent, pageSize, pageSize);
  }

  /** Forward, the window starts in the first mapped page; backward, it ends in the last one, unless the
      mapping would have to start before the file. */
  lemma RemapPlacement(forward: bool, position: nat, window: nat, oldExtent: int, pageSize: nat)
    requires 0 < pageSize && 0 < window && 0 <= oldExtent && oldExtent % pageSize == 0
    ensures var extent := Max(SpanOf(position, window, pageSize), oldExtent);
      var base := BaseFor(forward, position, window, extent, pageSize);
      && (forward ==> base <= position < base + pageSize)
      && (!forward ==>
            if extent <= position + window - 1 then base + extent - pageSize < position + window <= base + extent
            else base == 0)
  {
    var last := PageFloor(position + window - 1, pageSize);
    var extent := Max(SpanOf(position, window, pageSize), oldExtent);
    PageFloorIs(position, pageSize);
    PageFloorIs(position + window - 1, pageSize);
    RemapCovers(forward, position, window, oldExtent, pageSize);
    if extent <= position + window - 1 {
      if last < extent {
        MultiplesApart(last, extent, pageSize);
      }
    } else {
      MultiplesApart(last, extent, pageSize);
    }
  }

  /** No smaller number of whole pages from the window's first page on covers the window. */
  lemma SpanIsLeast(position: nat, window: nat, pageSize: nat, first: int, n: int)
    requires 0 < pageSize && 0 < window
    requires first % pageSize == 0 && first <= position < first + pageSize
    requires n % pageSize == 0 && position + window <= first + n
    ensures SpanOf(position, window, pageSize) <= n
  {
    var page, last := PageFloor(position, pageSize), PageFloor(position + window - 1, pageSize);
    PageFloorIs(position, pageSize);
    PageFloorIs(position + window - 1, pageSize);
    if first < page {
      MultiplesApart(first, page, pageSize);
    } else if page < first {
      MultiplesApart(page, first, pageSize);
    }
    MultiplesAdd(first, n, pageSize);
    MultiplesApart(last, first + n, pageSize);
  }

  /** `ftruncate`: cuts, or extends with zeros. */
  function Resized(file: seq<byte>, n: nat): (r: seq<byte>)
    ensures |r| == n
  {
    if n <= |file| then file[..n] else file + seq(n - |file|, _ => 0 as bv8)
  }

  class OFile {
    const pageSize: nat
    const forward: bool
    var size: int           // furthest byte any window reached
    var isOpen: bool
    var baseAddr: int
    var basePosition: int
    var offset: int
    var extent: int
    var file: seq<byte>

    ghost predicate Valid()
      reads this
    {
      && 0 < pageSize
      && 0 <= basePosition && basePosition % pageSize == 0
      && 0 <= extent && extent % pageSize == 0
      && 0 <= offset <= extent && 0 <= size
    }

    /** The file position an address in the mapping denotes. */
    function PositionOf(addr: int): int
      reads this
    {
      basePosition + (addr - baseAddr)
    }

    /** `[position, position + window)` is mapped, and `addr` is where. */
    ghost predicate Maps(addr: int, position: int, window: int)
      reads this
    {
      && addr == baseAddr + offset && PositionOf(addr) == position
      && basePosition <= position && position + window <= basePosition + extent
    }

    constructor (reserveSize: nat, forward: bool, pageSize: nat)
      requires 0 < pageSize && 0 < reserveSize
      ensures Valid() && isOpen && size == 0 && extent == 0 && basePosition == 0 && offset == 0
      ensures this.forward == forward && this.pageSize == pageSize && |file| == reserveSize
    {
      this.pageSize, this.forward := pageSize, forward;
      size, isOpen, baseAddr, basePosition, offset, extent := 0, true, 0, 0, 0, 0;
      file := Resized([], reserveSize);
      DivModIs(0, 0, 0, pageSize);
    }

    /** Drops the mapping and maps a new one, never smaller, around the window. */
    method Reposition(position: nat, window: nat) returns (addr: int)
      requires Valid() && 0 < window
      modifies `baseAddr, `basePosition, `offset, `extent
      ensures Valid() && Maps(addr, position, window)
      ensures extent == Max(SpanOf(position, window, pageSize), old(extent))
      ensures basePosition == BaseFor(forward, position, window, extent, pageSize)
    {
      RemapCovers(forward, position, window, extent, pageSize);
      var newExtent := Max(SpanOf(position, window, pageSize), extent);
      var base := BaseFor(forward, position, window, newExtent, pageSize);
      baseAddr := *;
      basePosition, offset, extent := base, position - base, newExtent;
      return baseAddr + offset;
    }

    /** `seek_impl`: stays in the mapping if the window fits, else moves it. */
    method SeekImpl(position: int, window: int) returns (r: Result<int, FileError>)
      requires Valid()
      modifies `baseAddr, `basePosition, `offset, `extent
      ensures Valid() && old(extent) <= extent
      ensures r.Ok? <==> 0 <= position && 0 < window
      ensures r.Ok? ==> Maps(r.value, position, window)
      ensures r.Ok? && old(basePosition) <= position && position + window <= old(basePosition) + old(extent) ==>
        baseAddr == old(baseAddr) && basePosition == old(basePosition) && extent == old(extent)
      ensures r.Ok? && !(old(basePosition) <= position && position + window <= old(basePosition) + old(extent)) ==>
        && extent == Max(SpanOf(position, window, pageSize), old(extent))
        && basePosition == BaseFor(forward, position, window, extent, pageSize)
      ensures r.Err? ==>
        && baseAddr == old(baseAddr) && basePosition == old(basePosition)
        && offset == old(offset) && extent == old(extent)
    {
      if !(position >= 0 && window > 0) {
        return Err(InvalidInput);
      }
      var begin := position - basePosition;
      var end := begin + window;
      if 0 <= begin < extent && 0 <= end <= extent {
        offset := begin;
        return Ok(baseAddr + begin);
      } else {
        var addr := Reposition(position, window);
        return Ok(addr);
      }
    }

    /** Absolute repositioning; the inferred file size grows to the end of the window. */
    method Seek(position: int, window: int) returns (r: Result<int, FileError>)
      requires Valid()
      modifies `baseAddr, `basePosition, `offset, `extent, `size
      ensures Valid() && old(extent) <= extent
      ensures r.Ok? <==> 0 <= position && 0 < window
      ensures r.Ok? ==> Maps(r.value, position, window) && size == Max(old(size), position + window)
      ensures r.Err? ==>
        && baseAddr == old(baseAddr) && basePosition == old(basePosition)
        && offset == old(offset) && extent == old(extent) && size == old(size)
    {
      r := SeekImpl(position, window);
      if r.Ok? {
        size := Max(size, position + window);
      }
    }

    /** Relative repositioning from the current offset. */
    method Advance(step: int, window: int) returns (r: Result<int, FileError>)
      requires Valid()
      modifies `baseAddr, `basePosition, `offset, `extent, `size
      ensures Valid() && old(extent) <= extent
      ensures var position := old(basePosition) + old(offset) + step;
        && (r.Ok? <==> 0 <= position && 0 < window)
        && (r.Ok? ==> Maps(r.value, position, window) && size == Max(old(size), position + window))
      ensures r.Err? ==>
        && baseAddr == old(baseAddr) && basePosition == old(basePosition)
        && offset == old(offset) && extent == old(extent) && size == old(size)
    {
      r := Seek(offset + step + basePosition, window);
    }

    /** A store through a mapped address. */
    method Store(addr: int, b: byte)
      requires Valid() && isOpen && baseAddr <= addr < baseAddr + extent && PositionOf(addr) < |file|
      modifies `file
      ensures file == old(file)[PositionOf(addr) := b]
    {
      file := file[PositionOf(addr) := b];
    }

    /** Leaves a file of the given size, which may not exceed what was ever in a window. */
    method TruncateAndClose(newSize: int) returns (r: Result<bool, FileError>)
      requires Valid()
      modifies `file, `size, `isOpen
      ensures Valid()
      ensures !old(isOpen) ==> r == Ok(false) && file == old(file) && size == old(size) && isOpen == old(isOpen)
      ensures old(isOpen) ==> (r.Ok? <==> 0 <= newSize <= old(size))
      ensures old(isOpen) && r.Ok? ==> r.value && file == Resized(old(file), newSize) && size == newSize && !isOpen
      ensures old(isOpen) && r.Ok? ==>
        && |file| == newSize
        && (forall i {:trigger file[i]} | 0 <= i < newSize ::
              file[i] == if i < |old(file)| then old(file)[i] else 0)
      ensures r.Err? ==> file == old(file) && size == old(size) && isOpen == old(isOpen)
    {
      if !isOpen {
        return Ok(false);
      }
      if !(0 <= newSize <= size) {
        return Err(InvalidInput);
      }
      file := Resized(file, newSize);
      size := newSize;
      isOpen := false;
      return Ok(true);
    }
  }
}
