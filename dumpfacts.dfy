/** What hexdata_dump (flhex.c:187-207) writes, stated about the record list
    DumpFrom that the method Dump.Dump is proved to render, and what the
    loader makes of the address records it writes. */
module DumpFacts {
  import opened Hex
  import opened Memory
  import opened Records
  import opened Load
  import opened LoadFacts
  import opened Dump

  // ---------------------------------------------------------------------
  // The data records

  /** The data records of a list, in order. */
  function DataOnly(rs: seq<Record>): (ds: seq<Record>)
    ensures |ds| <= |rs|
  {
    if |rs| == 0 then []
    else (if rs[0].rtype == DataType then [rs[0]] else []) + DataOnly(rs[1..])
  }

  /** The bytes the data records of a list carry, concatenated in order. */
  function Payloads(rs: seq<Record>): seq<byte>
  {
    if |rs| == 0 then [] else rs[0].data + Payloads(rs[1..])
  }

  lemma {:induction false} DataOnlyConcat(a: seq<Record>, b: seq<Record>)
    ensures DataOnly(a + b) == DataOnly(a) + DataOnly(b)
  {
    if |a| > 0 {
      assert (a + b)[0] == a[0] && (a + b)[1..] == a[1..] + b;
      DataOnlyConcat(a[1..], b);
    } else {
      assert a + b == b;
    }
  }

  lemma {:induction false} PayloadsConcat(a: seq<Record>, b: seq<Record>)
    ensures Payloads(a + b) == Payloads(a) + Payloads(b)
  {
    if |a| > 0 {
      assert (a + b)[0] == a[0] && (a + b)[1..] == a[1..] + b;
      PayloadsConcat(a[1..], b);
    } else {
      assert a + b == b;
    }
  }

  /** The records from a start below `size` on: no data record among the
      address records, then the data record at the start. */
  lemma DataStep(m: Mem, addr: nat, n: nat, next: nat)
    requires m.width >= 1 && addr < m.size <= |m.cells| && n == ChunkSize(m, addr) && next == addr + n
    ensures DataOnly(DumpFrom(m, addr)) == [DataRecord(m, addr)] + DataOnly(DumpFrom(m, next))
  {
    var r := DataRecord(m, addr);
    DumpStep(m, addr, n, next);
    DataOnlyConcat(Bank(addr) + [r], DumpFrom(m, next));
    DataOnlyConcat(Bank(addr), [r]);
    assert DataOnly([r]) == [r] by {
      assert [r][1..] == [];
    }
    if Bank(addr) != [] {
      assert Bank(addr)[1..] == [];
    }
  }

  /** Past `size` there is only the end-of-file record. */
  lemma DumpAtEnd(m: Mem, addr: nat)
    requires m.width >= 1 && m.size <= |m.cells| && addr >= m.size
    ensures DumpFrom(m, addr) == [EofRecord] && DataOnly(DumpFrom(m, addr)) == []
  {
    assert [EofRecord][1..] == [];
  }

  /** One data record further: if data[next..size) is covered from `next`
      on, data[addr..size) is covered from `addr` on. */
  lemma CoversStep(m: Mem, addr: nat, n: nat, next: nat)
    requires m.width >= 1 && addr < m.size <= |m.cells| && n == ChunkSize(m, addr) && next == addr + n
    requires Payloads(DataOnly(DumpFrom(m, next))) == m.cells[next..m.size]
    ensures Payloads(DataOnly(DumpFrom(m, addr))) == m.cells[addr..m.size]
  {
    var r := DataRecord(m, addr);
    DataStep(m, addr, n, next);
    PayloadsCons(r, DataOnly(DumpFrom(m, next)));
    Split(m.cells, addr, next, m.size);
  }

  lemma PayloadsCons(r: Record, rs: seq<Record>)
    ensures Payloads([r] + rs) == r.data + Payloads(rs)
  {
    assert ([r] + rs)[1..] == rs;
  }

  lemma Split(s: seq<byte>, i: nat, j: nat, k: nat)
    requires i <= j <= k <= |s|
    ensures s[i..k] == s[i..j] + s[j..k]
  {
  }

  /** The data records from a start on cover data[start..size) exactly, in
      order, with no gap and no overlap. */
  lemma {:induction false} DumpCovers(m: Mem, addr: nat)
    requires m.width >= 1 && m.size <= |m.cells| && addr <= m.size
    ensures Payloads(DataOnly(DumpFrom(m, addr))) == m.cells[addr..m.size]
    decreases m.size - addr
  {
    if addr == m.size {
      DumpAtEnd(m, addr);
    } else {
      var n := ChunkSize(m, addr);
      DumpCovers(m, addr + n);
      CoversStep(m, addr, n, addr + n);
    }
  }

  /** hexdata_dump's output carries data[0..size) in its data records. */
  lemma DumpCarriesData(m: Mem)
    requires m.width >= 1 && m.size <= |m.cells|
    ensures Payloads(DataOnly(DumpFrom(m, 0))) == m.cells[..m.size]
  {
    DumpCovers(m, 0);
  }

  /** i * w as repeated addition, so that stepping from record i to record
      i + 1 stays linear. */
  function Times(i: nat, w: nat): (p: nat)
  {
    if i == 0 then 0 else Times(i - 1, w) + w
  }

  lemma {:induction false} TimesIsMul(i: nat, w: nat)
    ensures Times(i, w) == i * w
  {
    if i > 0 {
      TimesIsMul(i - 1, w);
      assert (i - 1) * w + w == i * w;
    }
  }

  /** The data records from a start on, chunk by chunk. */
  function Chunks(m: Mem, a: nat): seq<Record>
    requires m.width >= 1 && m.size <= |m.cells|
    decreases m.size - a
  {
    if a >= m.size then [] else [DataRecord(m, a)] + Chunks(m, a + ChunkSize(m, a))
  }

  /** The data records of the output are the chunks. */
  lemma {:induction false} DataOnlyChunks(m: Mem, a: nat)
    requires m.width >= 1 && m.size <= |m.cells|
    ensures DataOnly(DumpFrom(m, a)) == Chunks(m, a)
    decreases m.size - a
  {
    if a >= m.size {
      DumpAtEnd(m, a);
    } else {
      var n := ChunkSize(m, a);
      DataStep(m, a, n, a + n);
      DataOnlyChunks(m, a + n);
    }
  }

  /** Counting from any start, chunk i starts i * width further on. */
  lemma {:induction false} ChunkAt(m: Mem, a: nat, i: nat, off: nat)
    requires m.width >= 1 && m.size <= |m.cells| && off == Times(i, m.width)
    requires i < |Chunks(m, a)|
    ensures a + off < m.size
    ensures Chunks(m, a)[i] == DataRecord(m, a + off)
    decreases i
  {
    var n := ChunkSize(m, a);
    var next := a + n;
    assert Chunks(m, a) == [DataRecord(m, a)] + Chunks(m, next);
    if i > 0 && next < m.size {
      ChunkAt(m, next, i - 1, off - m.width);
    }
  }

  /** So in the whole dump, data record i is the chunk at i * width. */
  lemma DumpRecordAt(m: Mem, i: nat)
    requires m.width >= 1 && m.size <= |m.cells|
    requires i < |DataOnly(DumpFrom(m, 0))|
    ensures var r, addr := DataOnly(DumpFrom(m, 0))[i], i * m.width;
      && addr < m.size
      && r.count == (if m.size - addr < m.width then m.size - addr else m.width)
      && r.offset == addr % 0x10000 && r.rtype == DataType
      && r.data == m.cells[addr..addr + r.count]
  {
    TimesIsMul(i, m.width);
    DataOnlyChunks(m, 0);
    ChunkAt(m, 0, i, Times(i, m.width));
  }

  // ---------------------------------------------------------------------
  // The end-of-file record

  /** The output always ends with the end-of-file record. */
  lemma {:induction false} DumpEndsWithEof(m: Mem, addr: nat)
    requires m.width >= 1 && m.size <= |m.cells|
    ensures var rs := DumpFrom(m, addr); |rs| > 0 && rs[|rs| - 1] == EofRecord
    decreases m.size - addr
  {
    if addr < m.size {
      var n := ChunkSize(m, addr);
      DumpStep(m, addr, n, addr + n);
      DumpEndsWithEof(m, addr + n);
    }
  }

  /** ... so the last line written is ":00000001FF". */
  lemma DumpLastLine(m: Mem)
    requires m.width >= 1 && m.size <= |m.cells|
    ensures var ls := Render(DumpFrom(m, 0)); |ls| > 0 && ls[|ls| - 1] == ":00000001FF\n"
  {
    var rs := DumpFrom(m, 0);
    DumpEndsWithEof(m, 0);
    assert Render(rs) == Render(rs[..|rs| - 1]) + [Line(EofRecord)];
    EndOfFileLine();
  }

  // ---------------------------------------------------------------------
  // Reading a written record back

  /** `s` reads back as record r: its header parses, count, address and
      type are the record's, the payload read at columns 9, 11, ... is the
      record's data, the byte after it is the record's checksum, and all of
      those digits are there. */
  predicate ReadsAs(s: string, r: Record)
  {
    && |r.data| == r.count
    && HeaderOk(s) && |s| == 12 + 2 * r.count
    && Count(s) == r.count && Address(s) == r.offset && RecType(s) == r.rtype
    && Readable(s, 9, 2 * r.count + 2)
    && Payload(s, r.count) == r.data
    && ByteAt(s, 9 + 2 * r.count) == Checksum(r.count, r.offset, r.rtype, r.data)
  }

  /** Every line write_record writes reads back as its record. */
  lemma LineReads(r: Record)
    requires |r.data| == r.count
    ensures ReadsAs(Line(r), r)
  {
    var s := Line(r);
    EncodeFields(r.count, r.offset, r.rtype, r.data);
    ReadableWithin(s, 1, 10 + 2 * r.count, 9, 2 * r.count + 2);
    PayloadOf(s, r.data);
  }

  lemma ReadableWithin(s: string, i: nat, n: nat, j: nat, l: nat)
    requires Readable(s, i, n) && i <= j && j + l <= i + n
    ensures Readable(s, j, l)
  {
  }

  lemma PayloadOf(s: string, p: seq<byte>)
    requires forall j :: 0 <= j < |p| ==> ByteAt(s, 9 + 2 * j) == p[j]
    ensures Payload(s, |p|) == p
  {
  }

  /** A data record read back writes its payload from `base_addr` + its
      address field on and passes its checksum test. */
  lemma DataLoads(st: Loader, s: string, r: Record)
    requires ReadsAs(s, r) && r.rtype == DataType
    ensures var w := Widened(st, s);
      Step(st, s) == Continue(w.(mem := WriteData(w.mem, (r.offset + st.base) % Wrap, s, r.count),
                                 line := st.line + 1))
  {
    var w := Widened(st, s);
    var x := w.(mem := WriteData(w.mem, (r.offset + st.base) % Wrap, s, r.count));
    DataChecksum(st, s);
    StepData(st, s);
    assert Step(st, s) == Check(x, s, 9 + 2 * r.count, DataSum(HeaderByte(s), s, r.count));
    assert Step(st, s).Continue?;
  }

  /** The extended segment address record the dump writes at a multiple of
      0x10000 below 0x100000, read back, sets `base_addr` to that address. */
  lemma SegmentLoads(st: Loader, s: string, addr: nat)
    requires addr % 0x10000 == 0 && addr < 0x100000 && ReadsAs(s, Bank(addr)[0])
    ensures LineSafe(st, s) && Step(st, s) == Continue(Widened(st, s).(base := addr, line := st.line + 1))
  {
    var k := addr / 0x10000;
    SegmentBank(addr, k);
    PayloadBytes(s, [16 * k, 0]);
    AddressChecksum(st, s);
    StepSegment(st, s);
  }

  /** The segment record at addr = k * 0x10000 carries k << 4, then 0. */
  lemma SegmentBank(addr: nat, k: nat)
    requires addr % 0x10000 == 0 && addr < 0x100000 && k == addr / 0x10000
    ensures k < 16 && addr == k * 0x10000
    ensures Bank(addr) == [Record(2, 0, SegmentType, [16 * k, 0])]
  {
    assert addr / 0x1000 == 16 * k;
  }

  /** The linear record at addr = x * 0x10000 carries x >> 8, then x & 0xff. */
  lemma LinearBank(addr: nat, x: nat)
    requires addr % 0x10000 == 0 && 0x100000 <= addr < Wrap && x == addr / 0x10000
    ensures x < 0x10000
    ensures Bank(addr) == [Record(2, 0, LinearType, [x / 0x100, x % 0x100])]
  {
    assert addr / 0x100_0000 == x / 0x100;
  }

  /** The two payload bytes of a record with two, as the loader reads them. */
  lemma PayloadBytes(s: string, p: seq<byte>)
    requires |p| == 2 && Payload(s, 2) == p
    ensures ByteAt(s, 9) == p[0] && ByteAt(s, 11) == p[1]
  {
    assert Payload(s, 2)[0] == ByteAt(s, 9) && Payload(s, 2)[1] == ByteAt(s, 11);
  }

  /** The extended linear address record the dump writes at a higher
      multiple of 0x10000, read back, merges addr >> 16 into the high half
      of `base_addr`. */
  lemma LinearLoads(st: Loader, s: string, addr: nat)
    requires addr % 0x10000 == 0 && 0x100000 <= addr < Wrap && ReadsAs(s, Bank(addr)[0])
    ensures LineSafe(st, s)
    ensures Step(st, s) == Continue(Widened(st, s).(base := LinearBase(st.base, addr / 0x10000),
                                                    line := st.line + 1))
  {
    var x := addr / 0x10000;
    LinearBank(addr, x);
    PayloadBytes(s, [x / 0x100, x % 0x100]);
    assert WordAt(s, 9) == x;
    AddressChecksum(st, s);
    StepLinear(st, s);
  }

  /** The address records of hexdata_dump as the loader reads them: below
      0x100000 `base_addr` becomes the address; above, addr >> 16 is merged
      into its high half, which gives the address when the high half was
      clear. */
  lemma BankLoads(st: Loader, addr: nat)
    requires addr % 0x10000 == 0 && addr < Wrap
    ensures |Bank(addr)| == 1
    ensures var s := Line(Bank(addr)[0]);
      && LineSafe(st, s) && Step(st, s).Continue? && Step(st, s).next.line == st.line + 1
      && Step(st, s).next.mem == Widen(st.mem, 2)
      && (addr < 0x100000 ==> Step(st, s).next.base == addr)
      && (addr >= 0x100000 ==> Step(st, s).next.base == LinearBase(st.base, addr / 0x10000))
      && (addr >= 0x100000 && st.base < 0x10000 ==> Step(st, s).next.base == addr)
  {
    var r := Bank(addr)[0];
    LineReads(r);
    if addr < 0x100000 {
      SegmentLoads(st, Line(r), addr);
    } else {
      LinearLoads(st, Line(r), addr);
      if st.base < 0x10000 {
        LinearBaseFresh(st.base, addr / 0x10000);
      }
    }
  }

  /** After the segment record for 0xF0000, which the dump writes before
      the linear record for 0x100000, the OR merge makes `base_addr`
      0x1F0000, not 0x100000. */
  lemma LinearBankAfterSegment(st: Loader)
    requires st.base == 0xF0000
    ensures var s := Line(Bank(0x100000)[0]);
      Step(st, s).Continue? && Step(st, s).next.base == 0x1F0000
  {
    BankLoads(st, 0x100000);
    assert BitOr(1, 2) == 2 * BitOr(0, 1) + 1 == 3;
    assert BitOr(3, 4) == 7 && BitOr(7, 8) == 15;
    assert BitOr(15, 16) == 31;
  }
}
