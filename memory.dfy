/** The value of a `struct hexdata` (flhex.c:16-22) and the effect of
    hexdata_new, hexdata_resize and hexdata_write on it (flhex.c:62-98), as
    pure functions. The class Buffer.HexData is proved to follow them. */
module Memory {
  import opened Hex
  import opened PowerOfTwo

  /** `cells` is the allocated block, so |cells| is `capacity`; `size` is one
      past the highest offset written; `empty` pads unwritten space; `width`
      is the record byte count used when dumping. */
  datatype Mem = Mem(cells: seq<byte>, size: nat, empty: byte, width: byte)

  /** The initial capacity of flhex.c:64. */
  const InitialCapacity: nat := 0x10000

  /** Largest capacity a uint32 round-up can reach without wrapping. */
  const MaxCapacity: nat := 0x8000_0000

  /** The capacity is a power of two in [64 KiB, 2 GiB], the populated part
      fits, and everything past it still holds the padding byte. */
  predicate Good(m: Mem)
  {
    && IsPow2(|m.cells|)
    && InitialCapacity <= |m.cells| <= MaxCapacity
    && m.size <= |m.cells|
    && forall k :: m.size <= k < |m.cells| ==> m.cells[k] == m.empty
  }

  /** hexdata_new (flhex.c:62-71). */
  function NewMem(empty: byte): (m: Mem)
    ensures Good(m) && |m.cells| == InitialCapacity
    ensures m.size == 0 && m.width == 16 && m.empty == empty
    ensures forall k :: 0 <= k < |m.cells| ==> m.cells[k] == empty
  {
    LeastFromRange(InitialCapacity, 16);
    Mem(seq(InitialCapacity, _ => empty), 0, empty, 16)
  }

  /** hexdata_resize (flhex.c:73-88): grow to the least power of two that is
      at least `desired`, padding the new space. What this means is stated
      by ResizeFacts; the contract here only makes WriteMem well formed. */
  function ResizeMem(m: Mem, desired: nat): (r: Mem)
    ensures desired <= |r.cells|
  {
    if desired <= |m.cells| then m
    else
      LeastPow2Bounds(desired);
      m.(cells := m.cells + seq(LeastPow2(desired) - |m.cells|, _ => m.empty))
  }

  /** hexdata_resize: nothing happens unless `desired` exceeds the capacity;
      then the capacity becomes the least power of two at least `desired`,
      the old cells are kept, the new ones hold the padding byte, and size,
      padding and width are untouched. */
  lemma ResizeFacts(m: Mem, desired: nat)
    ensures var r := ResizeMem(m, desired);
      && (desired <= |m.cells| ==> r == m)
      && (desired > |m.cells| ==> |r.cells| == LeastPow2(desired))
      && desired <= |r.cells|
      && |m.cells| <= |r.cells| && r.cells[..|m.cells|] == m.cells
      && (forall k :: |m.cells| <= k < |r.cells| ==> r.cells[k] == m.empty)
      && r.size == m.size && r.empty == m.empty && r.width == m.width
  {
    if desired > |m.cells| {
      LeastPow2Bounds(desired);
    }
  }

  /** hexdata_write (flhex.c:90-98): make room for addr, store val there,
      and extend size past addr. */
  function WriteMem(m: Mem, addr: nat, val: byte): Mem
  {
    var g := if addr >= |m.cells| then ResizeMem(m, addr + 1) else m;
    g.(cells := g.cells[addr := val], size := if g.size <= addr then addr + 1 else g.size)
  }

  /** hexdata_write stores val at addr, moves size past addr, and keeps the
      padding byte and the width. */
  lemma WriteFacts(m: Mem, addr: nat, val: byte)
    ensures var r := WriteMem(m, addr, val);
      && |m.cells| <= |r.cells| && addr < |r.cells| && r.cells[addr] == val
      && r.size == (if m.size <= addr then addr + 1 else m.size)
      && r.empty == m.empty && r.width == m.width
  {
    ResizeFacts(m, addr + 1);
  }

  /** What a write leaves alone: every other old cell, and padding in every
      other new cell; the capacity grows only when addr is past it, and then
      to the least power of two above addr. */
  lemma WriteFrame(m: Mem, addr: nat, val: byte)
    ensures var r := WriteMem(m, addr, val);
      && (addr < |m.cells| ==> |r.cells| == |m.cells|)
      && (addr >= |m.cells| ==> |r.cells| == LeastPow2(addr + 1))
      && (forall k :: 0 <= k < |m.cells| && k != addr ==> r.cells[k] == m.cells[k])
      && (forall k :: |m.cells| <= k < |r.cells| && k != addr ==> r.cells[k] == m.empty)
  {
    ResizeFacts(m, addr + 1);
    var g := if addr >= |m.cells| then ResizeMem(m, addr + 1) else m;
    assert forall k :: 0 <= k < |m.cells| ==> g.cells[k] == g.cells[..|m.cells|][k];
  }

  /** hexdata_resize keeps the invariant. */
  lemma ResizeKeepsGood(m: Mem, desired: nat)
    requires Good(m) && desired <= MaxCapacity
    ensures Good(ResizeMem(m, desired))
  {
    var r := ResizeMem(m, desired);
    ResizeFacts(m, desired);
    if desired > |m.cells| {
      LeastPow2IsPow2(desired);
      PowersArePow2(31);
      LeastPow2IsLeast(desired, 31);
      forall k | m.size <= k < |r.cells|
        ensures r.cells[k] == r.empty
      {
        if k < |m.cells| {
          assert r.cells[k] == r.cells[..|m.cells|][k];
        }
      }
    }
  }

  /** hexdata_write keeps the invariant for every address below 2^31; at or
      above it `addr + 1` has no power of two inside a uint32. */
  lemma WriteKeepsGood(m: Mem, addr: nat, val: byte)
    requires Good(m) && addr < MaxCapacity
    ensures Good(WriteMem(m, addr, val))
  {
    ResizeKeepsGood(m, addr + 1);
    WriteFrame(m, addr, val);
    WriteFacts(m, addr, val);
  }

  /** A sequence of writes, applied first to last. */
  function WriteAll(m: Mem, ws: seq<(nat, byte)>): Mem
  {
    if |ws| == 0 then m else WriteMem(WriteAll(m, ws[..|ws| - 1]), ws[|ws| - 1].0, ws[|ws| - 1].1)
  }

  predicate Targets(ws: seq<(nat, byte)>, k: nat)
  {
    exists j :: 0 <= j < |ws| && ws[j].0 == k
  }

  /** A position that no write targets still holds what it held, or the
      padding byte if it was allocated on the way; in particular, in a buffer
      that started empty, a never-written position stays `empty`. */
  lemma {:induction false} NeverWrittenStaysEmpty(m: Mem, ws: seq<(nat, byte)>, k: nat)
    requires !Targets(ws, k)
    ensures var r := WriteAll(m, ws);
      && |m.cells| <= |r.cells| && r.empty == m.empty
      && (k < |m.cells| ==> r.cells[k] == m.cells[k])
      && (|m.cells| <= k < |r.cells| ==> r.cells[k] == m.empty)
  {
    if |ws| > 0 {
      var w := ws[..|ws| - 1];
      assert !Targets(w, k);
      assert ws[|ws| - 1].0 != k;
      NeverWrittenStaysEmpty(m, w, k);
      WriteFacts(WriteAll(m, w), ws[|ws| - 1].0, ws[|ws| - 1].1);
      WriteFrame(WriteAll(m, w), ws[|ws| - 1].0, ws[|ws| - 1].1);
    }
  }
}
