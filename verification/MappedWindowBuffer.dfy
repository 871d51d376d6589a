/**
 `mapped_window_buffer`: a byte stream between a write and a read position over a
 sliding mapping of a file. Whatever remapping happens, the two positions are the
 sums of the steps taken, and closing leaves exactly the bytes that were consumed.
 */
module MappedWindowBuffer {
  import opened Wrappers
  import opened MappedFile

  class WindowBuffer {
    const wWindow: int
    var outW: int          // memoized address of the mapping's current window
    var rOffset: int
    var wOffset: int
    var capacity: int
    const out: OFile
    const minCapacity: int
    ghost var rTotal: int  // the sum of all read steps
    ghost var wTotal: int  // the sum of all write steps

    ghost predicate Valid()
      reads this, out
    {
      && out.Valid() && out.isOpen
      && 0 < wWindow <= minCapacity <= capacity
      && 0 <= rOffset <= wOffset <= capacity
      && out.Maps(outW, rTotal - rOffset, capacity + wWindow)
      && wTotal - wOffset == rTotal - rOffset
      && out.size == rTotal - rOffset + capacity + wWindow
    }

    /** The bytes committed by the writer. */
    ghost function Committed(): seq<byte>
      reads this, out
      requires Valid()
    {
      if wTotal <= |out.file| then out.file[..wTotal] else out.file
    }

    constructor (capacity: int, wWindow: int, out: OFile)
      requires 0 < wWindow <= capacity && out.Valid() && out.isOpen
      requires out.size == 0 && out.extent == 0 && out.offset == 0 && out.basePosition == 0
      modifies out
      ensures Valid() && this.out == out && this.wWindow == wWindow && this.capacity == capacity == minCapacity
      ensures rTotal == 0 && wTotal == 0 && out.file == old(out.file)
    {
      this.wWindow, this.capacity, this.minCapacity, this.out := wWindow, capacity, capacity, out;
      rOffset, wOffset, rTotal, wTotal := 0, 0, 0, 0;
      var r := out.Seek(0, capacity + wWindow);
      outW := r.value;
    }

    /** The source's constructor checks its arguments and opens the file. */
    static method Create(capacity: int, wWindow: int, reserveSize: int, pageSize: nat)
        returns (r: Result<WindowBuffer, FileError>)
      requires 0 < pageSize
      ensures r.Ok? <==> 0 < reserveSize && 0 < wWindow <= capacity
      ensures r.Ok? ==>
        && fresh(r.value) && fresh(r.value.out) && r.value.Valid() && r.value.out.forward
        && r.value.wWindow == wWindow && r.value.capacity == capacity && r.value.rTotal == 0 == r.value.wTotal
        && |r.value.out.file| == reserveSize
    {
      if reserveSize <= 0 || wWindow <= 0 || capacity < wWindow {
        return Err(InvalidInput);
      }
      var out := new OFile(reserveSize, true, pageSize);
      var b := new WindowBuffer(capacity, wWindow, out);
      return Ok(b);
    }

    /** Bytes available for reading. */
    method Size() returns (n: int)
      requires Valid()
      ensures n == wTotal - rTotal >= 0
    {
      n := wOffset - rOffset;
    }

    /** The read position: the address of the first byte not consumed. */
    method RPosition() returns (addr: int)
      requires Valid()
      ensures out.PositionOf(addr) == rTotal
      ensures out.baseAddr <= addr && addr + (wTotal - rTotal) <= out.baseAddr + out.extent
    {
      addr := outW + rOffset;
    }

    /** The write position, with at least `wWindow` mapped bytes after it. */
    method WPosition() returns (addr: int)
      requires Valid()
      ensures out.PositionOf(addr) == wTotal
      ensures out.baseAddr <= addr && addr + wWindow <= out.baseAddr + out.extent
    {
      addr := outW + wOffset;
    }

    /** Consumes bytes; the mapping, hence the write position, does not move. */
    method RAdvance(step: int) returns (r: Result<int, FileError>)
      requires Valid()
      modifies `rOffset, `rTotal
      ensures Valid()
      ensures r.Ok? <==> 0 <= step <= wTotal - old(rTotal)
      ensures r.Ok? ==> rTotal == old(rTotal) + step && out.PositionOf(r.value) == rTotal
      ensures r.Err? ==> rTotal == old(rTotal) && rOffset == old(rOffset)
      ensures Committed() == old(Committed())
    {
      var sz := wOffset - rOffset;
      if !(0 <= step <= sz) {
        return Err(InvalidInput);
      }
      rOffset := rOffset + step;
      rTotal := rTotal + step;
      return Ok(outW + rOffset);
    }

    /** Commits bytes; slides the mapping only when the capacity is used up. */
    method WAdvance(step: int) returns (r: Result<int, FileError>)
      requires Valid()
      modifies this, out
      ensures Valid()
      ensures r.Ok? <==> 0 <= step <= wWindow
      ensures r.Ok? ==> wTotal == old(wTotal) + step && out.PositionOf(r.value) == wTotal
      ensures r.Err? ==> wTotal == old(wTotal)
      ensures rTotal == old(rTotal) && out.file == old(out.file) && old(capacity) <= capacity
      ensures r.Ok? && old(wOffset) + step <= old(capacity) ==> out.baseAddr == old(out.baseAddr) && outW == old(outW)
    {
      if !(0 <= step <= wWindow) {
        return Err(InvalidInput);
      }
      var w := wOffset + step;
      if w <= capacity {
        wOffset, wTotal := w, wTotal + step;
        return Ok(outW + wOffset);
      }
      var addr := WRemapAdvance(step);
      return Ok(addr);
    }

    /** Moves the mapping up to the read position, growing it if the unread bytes need more. */
    method WRemapAdvance(step: int) returns (addr: int)
      requires Valid() && 0 <= step <= wWindow
      modifies this, out
      ensures Valid() && wTotal == old(wTotal) + step && rTotal == old(rTotal)
      ensures out.file == old(out.file) && old(capacity) <= capacity
      ensures out.PositionOf(addr) == wTotal
      ensures rOffset == 0 && capacity == Max(old(capacity), wTotal - rTotal)
    {
      var sz := wOffset - rOffset;
      wOffset := sz + step;
      var newCapacity := Max(capacity, wOffset);
      var r := out.Advance(rOffset, newCapacity + wWindow);
      outW := r.value;
      rOffset := 0;
      capacity := newCapacity;
      wTotal := wTotal + step;
      return outW + (sz + step);
    }

    /** The client fills bytes after the write position. */
    method Write(bytes: seq<byte>)
      requires Valid() && |bytes| <= wWindow && wTotal + |bytes| <= |out.file|
      modifies out`file
      ensures Valid() && Committed() == old(Committed()) && |out.file| == |old(out.file)|
      ensures out.file[wTotal..wTotal + |bytes|] == bytes
    {
      ghost var before := out.file;
      var w := WPosition();
      for i := 0 to |bytes|
        invariant |out.file| == |before| && out.file[..wTotal] == before[..wTotal]
        invariant out.file[wTotal..wTotal + i] == bytes[..i]
      {
        ByteAppended(out.file, wTotal, i, bytes[i]);
        out.Store(w + i, bytes[i]);
        assert bytes[..i + 1] == bytes[..i] + [bytes[i]];
      }
      assert bytes[..|bytes|] == bytes;
    }

    /** Writing and committing bytes appends them to the stream. */
    method Append(bytes: seq<byte>)
      requires Valid() && |bytes| <= wWindow && wTotal + |bytes| <= |out.file|
      modifies this, out
      ensures Valid() && Committed() == old(Committed()) + bytes && rTotal == old(rTotal)
      ensures wTotal == old(wTotal) + |bytes| && |out.file| == |old(out.file)| && old(capacity) <= capacity
    {
      Write(bytes);
      ghost var file := out.file;
      var r := WAdvance(|bytes|);
      assert file[..wTotal] == file[..old(wTotal)] + bytes;
    }

    /** The client reads bytes after the read position: the committed ones not yet consumed. */
    method Read(n: nat) returns (bytes: seq<byte>)
      requires Valid() && n <= wTotal - rTotal && wTotal <= |out.file|
      ensures bytes == Committed()[rTotal..rTotal + n]
    {
      var a := RPosition();
      bytes := [];
      for i := 0 to n
        invariant bytes == Committed()[rTotal..rTotal + i]
      {
        assert out.PositionOf(a + i) == rTotal + i;
        bytes := bytes + [out.file[out.PositionOf(a + i)]];
      }
    }

    /** The destructor's truncation: the file is left with the bytes consumed, and nothing else. */
    method TruncateAndClose()
      requires Valid()
      modifies out
      ensures !out.isOpen && out.size == rTotal
      ensures |out.file| == rTotal
      ensures rTotal <= |old(out.file)| ==> out.file == old(out.file)[..rTotal]
      ensures wTotal <= |old(out.file)| ==> out.file == old(Committed())[..rTotal]
    {
      var rCount := out.size + rOffset - capacity - wWindow;
      var closed := out.TruncateAndClose(rCount);
    }
  }

  /** Writing the byte after the `i` bytes at `at`. */
  lemma ByteAppended(file: seq<byte>, at: nat, i: nat, b: byte)
    requires at + i < |file|
    ensures file[at + i := b][..at] == file[..at]
    ensures file[at + i := b][at..at + (i + 1)] == file[at..at + i] + [b]
  {
  }
}
