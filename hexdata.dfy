/** `struct hexdata` (flhex.c:16-22) as a class whose methods update its
    fields in place, as hexdata_new, hexdata_resize and hexdata_write do
    (flhex.c:62-98). Each method is proved to follow the functions of module
    Memory on the abstract value Abs(). */
module Buffer {
  import opened Hex
  import opened PowerOfTwo
  import opened Memory

  class HexData {
    var capacity: nat
    var size: nat
    var data: array<byte>
    var empty: byte
    var width: byte

    /** The allocated block is `capacity` bytes and the value it holds keeps
        the invariant of Memory.Good. */
    predicate Valid()
      reads this, data
    {
      data.Length == capacity && Good(Abs())
    }

    /** The value of the struct. */
    function Abs(): (m: Mem)
      reads this, data
      ensures |m.cells| == data.Length
    {
      Mem(data[..], size, empty, width)
    }

    /** hexdata_new (flhex.c:62-71): a block of 64 KiB filled with `empty`. */
    constructor (empty: byte)
      ensures Valid() && fresh(data)
      ensures Abs() == NewMem(empty)
    {
      capacity := InitialCapacity;
      size := 0;
      var block := new byte[InitialCapacity];
      // memset
      for k := 0 to InitialCapacity
        invariant forall j :: 0 <= j < k ==> block[j] == empty
      {
        block[k] := empty;
      }
      assert block[..] == NewMem(empty).cells;
      data := block;
      this.empty := empty;
      width := 16;
    }

    /** hexdata_resize (flhex.c:73-88). Nothing happens unless `desired`
        exceeds the capacity; then the block is reallocated to the least power
        of two at least `desired` (the value that the bit smearing of
        flhex.c:76-83, modelled by PowerOfTwo.RoundUpPow2, is proved to
        compute; here it is computed as LeastPow2), the old bytes are
        kept (realloc) and the new ones set to `empty` (memset). */
    method Resize(desired: nat)
      requires Valid() && desired <= MaxCapacity
      modifies this
      ensures Valid()
      ensures Abs() == ResizeMem(old(Abs()), desired)
      ensures data == old(data) || fresh(data)
    {
      ghost var m := Abs();
      ResizeKeepsGood(m, desired);
      if desired > capacity {
        var newCapacity := LeastPow2(desired);
        LeastPow2Bounds(desired);
        data := Realloc(data, newCapacity, empty);
        capacity := newCapacity;
      }
    }

    /** hexdata_write (flhex.c:90-98): grow when addr is past the capacity,
        store `val` at addr and move `size` past it. Addresses from 2^31 up
        make `addr + 1` round up past uint32, so they are excluded. */
    method Write(addr: nat, val: byte)
      requires Valid() && addr < MaxCapacity
      modifies this, data
      ensures Valid()
      ensures Abs() == WriteMem(old(Abs()), addr, val)
      ensures data == old(data) || fresh(data)
    {
      ghost var m := Abs();
      WriteKeepsGood(m, addr, val);
      if addr >= capacity {
        Resize(addr + 1);
      }
      data[addr] := val;
      if size <= addr {
        size := addr + 1;
      }
      assert data[..] == WriteMem(m, addr, val).cells;
    }
  }

  /** xrealloc followed by the memset of flhex.c:84-85: a block of
      `newLength` bytes that starts with the old block and is padded with
      `pad`. */
  method Realloc(src: array<byte>, newLength: nat, pad: byte) returns (block: array<byte>)
    requires src.Length <= newLength
    ensures fresh(block)
    ensures block[..] == src[..] + seq(newLength - src.Length, _ => pad)
  {
    block := new byte[newLength];
    for k := 0 to src.Length
      invariant forall j :: 0 <= j < k ==> block[j] == src[j]
    {
      block[k] := src[k];
    }
    for k := src.Length to newLength
      invariant forall j :: 0 <= j < src.Length ==> block[j] == src[j]
      invariant forall j :: src.Length <= j < k ==> block[j] == pad
    {
      block[k] := pad;
    }
    assert forall j :: 0 <= j < newLength ==>
      block[j] == (src[..] + seq(newLength - src.Length, _ => pad))[j];
  }
}
