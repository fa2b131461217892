/** hexdata_dump (flhex.c:187-207): the populated part of the buffer,
    data[0..size), re-encoded as data records of `width` bytes, each start
    that falls on a multiple of 0x10000 announced by an address record,
    followed by the end-of-file record. DumpFrom lists the records, Render
    turns them into the lines write_record writes, and the method Dump is the
    loop of flhex.c:189-204 over a HexData object, proved to produce Render
    of DumpFrom. */
module Dump {
  import opened Hex
  import opened Memory
  import opened Records
  import Buffer

  /** A `uint16_t` address field. */
  type Word = x: nat | x < 0x10000

  /** The arguments of one write_record call. */
  datatype Record = Record(count: byte, offset: Word, rtype: byte, data: seq<byte>)

  /** The line write_record writes for a record. */
  function Line(r: Record): string
  {
    Encode(r.count, r.offset, r.rtype, r.data)
  }

  /** `show` applied to each record of a list, in order. */
  function Lines(show: Record -> string, rs: seq<Record>): (lines: seq<string>)
    ensures |lines| == |rs|
  {
    if |rs| == 0 then [] else Lines(show, rs[..|rs| - 1]) + [show(rs[|rs| - 1])]
  }

  /** The lines written for a list of records, in order. */
  function Render(rs: seq<Record>): seq<string>
  {
    Lines(Line, rs)
  }

  /** The record flhex.c:205 ends the output with. */
  const EofRecord := Record(0, 0, EndOfFileType, [])

  /** The address record flhex.c:190-196 writes before the data record
      starting at `addr`: an extended segment address record for a multiple
      of 0x10000 below 0x100000 (payload `(addr >> 12) & 0xf0`, 0), an
      extended linear address record for a higher multiple (payload
      `addr >> 24`, `(addr >> 16) & 0xff`), nothing otherwise. */
  function Bank(addr: nat): seq<Record>
  {
    if addr % 0x10000 == 0 && addr < 0x100000 then
      [Record(2, 0, SegmentType, [(addr / 0x1000) % 0x100 / 0x10 * 0x10, 0])]
    else if addr % 0x10000 == 0 && addr != 0 then
      [Record(2, 0, LinearType, [(addr / 0x100_0000) % 0x100, (addr / 0x10000) % 0x100])]
    else []
  }

  /** The byte count of the data record starting at `addr`: `width`, cut
      short at `size` (flhex.c:198-201). */
  function ChunkSize(m: Mem, addr: nat): byte
    requires addr < m.size
  {
    if addr + m.width > m.size then m.size - addr else m.width
  }

  /** The data record starting at `addr` (flhex.c:197-202). */
  function DataRecord(m: Mem, addr: nat): Record
    requires addr < m.size <= |m.cells|
  {
    var n := ChunkSize(m, addr);
    Record(n, addr % 0x10000, DataType, m.cells[addr..addr + n])
  }

  /** The records hexdata_dump writes from `addr` on. */
  function DumpFrom(m: Mem, addr: nat): seq<Record>
    requires m.width >= 1 && m.size <= |m.cells|
    decreases m.size - addr
  {
    if addr >= m.size then [EofRecord]
    else Bank(addr) + [DataRecord(m, addr)] + DumpFrom(m, addr + ChunkSize(m, addr))
  }

  /** hexdata_dump on a HexData object: the output as the lines written.
      The buffer is only read, so dumping twice writes the same lines. */
  method Dump(h: Buffer.HexData) returns (lines: seq<string>)
    requires h.Valid() && h.width >= 1
    ensures lines == Render(DumpFrom(h.Abs(), 0))
  {
    ghost var m := h.Abs();
    var addr: nat := 0;
    lines := [];
    while addr < h.size
      invariant addr <= h.size
      invariant m == h.Abs()
      invariant lines + Render(DumpFrom(m, addr)) == Render(DumpFrom(m, 0))
      decreases h.size - addr
    {
      var bank := EmitBank(addr);
      var line, size := EmitData(h, addr);
      var next := addr + size;
      RenderStep(m, addr, size, next);
      Regroup(lines, Render(DumpFrom(m, addr)), bank, line, Render(DumpFrom(m, next)), Render(DumpFrom(m, 0)));
      lines, addr := lines + bank + [line], next;
    }
    var line := WriteRecord(0, 0, EndOfFileType, []);
    RenderOne(EofRecord);
    lines := lines + [line];
  }

  /** The address record, if any, written before the data record at `addr`
      (flhex.c:190-196). */
  method EmitBank(addr: nat) returns (ls: seq<string>)
    ensures ls == Render(Bank(addr))
  {
    if addr % 0x10000 == 0 && addr < 0x100000 {
      var line := WriteRecord(2, 0, SegmentType, [(addr / 0x1000) % 0x100 / 0x10 * 0x10, 0]);
      RenderOne(Bank(addr)[0]);
      ls := [line];
    } else if addr % 0x10000 == 0 && addr != 0 {
      var line := WriteRecord(2, 0, LinearType, [(addr / 0x100_0000) % 0x100, (addr / 0x10000) % 0x100]);
      RenderOne(Bank(addr)[0]);
      ls := [line];
    } else {
      ls := [];
    }
  }

  /** The data record at `addr` (flhex.c:197-202): the byte count, cut short
      at `size`, and the line written. */
  method EmitData(h: Buffer.HexData, addr: nat) returns (line: string, size: byte)
    requires h.Valid() && h.width >= 1 && addr < h.size
    ensures size == ChunkSize(h.Abs(), addr) && line == Line(DataRecord(h.Abs(), addr))
  {
    ghost var m := h.Abs();
    size := h.width;
    if addr + size > h.size {
      size := h.size - addr;
    }
    assert size == ChunkSize(m, addr);
    var data := h.data[addr..addr + size];
    assert DataRecord(m, addr) == Record(size, addr % 0x10000, DataType, data);
    line := WriteRecord(size, addr % 0x10000, DataType, data);
  }

  /** The lines from a start below `size` on: the address record, the data
      record, and the lines from the next start. */
  lemma RenderStep(m: Mem, addr: nat, n: nat, next: nat)
    requires m.width >= 1 && addr < m.size <= |m.cells| && n == ChunkSize(m, addr) && next == addr + n
    ensures Render(DumpFrom(m, addr))
      == Render(Bank(addr)) + [Line(DataRecord(m, addr))] + Render(DumpFrom(m, next))
  {
    var r := DataRecord(m, addr);
    DumpStep(m, addr, n, next);
    RenderConcat(Bank(addr) + [r], DumpFrom(m, next));
    RenderConcat(Bank(addr), [r]);
    RenderOne(r);
  }

  /** The records from a start below `size` on. */
  lemma DumpStep(m: Mem, addr: nat, n: nat, next: nat)
    requires m.width >= 1 && addr < m.size <= |m.cells| && n == ChunkSize(m, addr) && next == addr + n
    ensures DumpFrom(m, addr) == Bank(addr) + [DataRecord(m, addr)] + DumpFrom(m, next)
  {
  }

  /** The loop's invariant, one data record further. */
  lemma Regroup(done: seq<string>, todo: seq<string>, bank: seq<string>, line: string,
                rest: seq<string>, all: seq<string>)
    requires done + todo == all && todo == bank + [line] + rest
    ensures (done + bank + [line]) + rest == all
  {
  }

  /** A single record is written as its line. */
  lemma RenderOne(r: Record)
    ensures Render([r]) == [Line(r)]
  {
    assert [r][..0] == [];
  }

  /** Writing record lists one after the other writes their lines one after
      the other. */
  lemma RenderConcat(a: seq<Record>, b: seq<Record>)
    ensures Render(a + b) == Render(a) + Render(b)
  {
    LinesConcat(Line, a, b);
  }

  lemma {:induction false} LinesConcat(show: Record -> string, a: seq<Record>, b: seq<Record>)
    ensures Lines(show, a + b) == Lines(show, a) + Lines(show, b)
    decreases |b|
  {
    if |b| == 0 {
      assert a + b == a;
    } else {
      var c, x := b[..|b| - 1], b[|b| - 1];
      assert b == c + [x];
      assert a + b == (a + c) + [x];
      LinesConcat(show, a, c);
      LinesSnoc(show, a + c, x);
      LinesSnoc(show, c, x);
    }
  }

  lemma LinesSnoc(show: Record -> string, rs: seq<Record>, r: Record)
    ensures Lines(show, rs + [r]) == Lines(show, rs) + [show(r)]
  {
    assert (rs + [r])[..|rs|] == rs;
  }
}
