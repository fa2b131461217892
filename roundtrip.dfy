/** Loading what hexdata_dump writes (flhex.c:187-207) with hexdata_load
    (flhex.c:107-172) into a fresh buffer gives back `size` and
    data[0..size), as long as only extended segment address records are
    written (size at most 0x100000), no data record straddles a 64 KiB bank
    (width divides 0x10000) and every line fits the 256-byte line buffer. */
module RoundTrip {
  import opened Hex
  import opened Memory
  import opened Records
  import opened Load
  import opened LoadFacts
  import opened Dump
  import opened DumpFacts

  /** The buffers whose dump reloads exactly. */
  predicate Reloadable(m: Mem)
  {
    && 1 <= m.width && 12 + 2 * m.width < 256 && 0x10000 % m.width == 0
    && m.size <= |m.cells| && m.size <= 0x100000
  }

  /** The loader has read the dump of data[0..a): the buffer holds those
      bytes and no more, and within a bank `base_addr` is the bank's start. */
  predicate LoadedUpTo(m: Mem, st: Loader, a: nat)
  {
    && st.mem.size == a && a <= |st.mem.cells| && a <= |m.cells| && st.mem.cells[..a] == m.cells[..a]
    && (a < m.size && a % 0x10000 != 0 ==> st.base == a - a % 0x10000)
  }

  /** One line that continues the load, then the rest. */
  lemma StepThen(st: Loader, s: string, rest: seq<string>)
    requires Step(st, s).Continue?
    ensures Run(st, [s] + rest) == Run(Step(st, s).next, rest)
    ensures LineSafe(st, s) && Safe(Step(st, s).next, rest) ==> Safe(st, [s] + rest)
  {
    assert ([s] + rest)[0] == s && ([s] + rest)[1..] == rest;
  }

  /** The address record before the data record at `a`, if any. */
  lemma BankPart(st: Loader, a: nat, rest: seq<string>) returns (st1: Loader)
    requires a < 0x100000
    ensures Run(st, Render(Bank(a)) + rest) == Run(st1, rest)
    ensures Safe(st1, rest) ==> Safe(st, Render(Bank(a)) + rest)
    ensures st1.mem.cells == st.mem.cells && st1.mem.size == st.mem.size
    ensures st1.base == if a % 0x10000 == 0 then a else st.base
  {
    if a % 0x10000 == 0 {
      var b := Bank(a)[0];
      BankLoads(st, a);
      assert Bank(a) == [b];
      RenderOne(b);
      StepThen(st, Line(b), rest);
      st1 := Step(st, Line(b)).next;
    } else {
      assert Render(Bank(a)) + rest == rest;
      st1 := st;
    }
  }

  /** The data record at `a`, read within its bank. */
  lemma DataPart(m: Mem, st: Loader, a: nat, n: nat, s: string, rest: seq<string>) returns (st2: Loader)
    requires Reloadable(m) && a < m.size && n == ChunkSize(m, a) && ReadsAs(s, DataRecord(m, a))
    requires st.mem.size == a && a <= |st.mem.cells| && st.mem.cells[..a] == m.cells[..a]
    requires st.base == a - a % 0x10000
    ensures Run(st, [s] + rest) == Run(st2, rest)
    ensures Safe(st2, rest) ==> Safe(st, [s] + rest)
    ensures st2.base == st.base && st2.mem.size == a + n
    ensures a + n <= |st2.mem.cells| && st2.mem.cells[..a + n] == m.cells[..a + n]
  {
    var r := DataRecord(m, a);
    InBank(a, r.offset, st.base);
    DataLoadsAt(st, s, r, a, n);
    DataLineSafe(st, s, r, a, n);
    ChunkLoaded(m, Widened(st, s).mem, a, n, s);
    st2 := Step(st, s).next;
    StepThen(st, s, rest);
  }

  /** The data line is whole, its digits are there, and its bytes stay
      addressable. */
  lemma DataLineSafe(st: Loader, s: string, r: Record, a: nat, n: nat)
    requires ReadsAs(s, r) && r.rtype == DataType && r.count == n && 12 + 2 * n < 256
    requires (r.offset + st.base) % Wrap == a && a + n <= 0x100000
    ensures LineSafe(st, s)
  {
    assert (st.base + Address(s)) % Wrap == a;
  }

  /** DataLoads with the address and the byte count named. */
  lemma DataLoadsAt(st: Loader, s: string, r: Record, a: nat, n: nat)
    requires ReadsAs(s, r) && r.rtype == DataType
    requires (r.offset + st.base) % Wrap == a && r.count == n && a + n <= Wrap
    ensures Step(st, s).Continue?
    ensures Step(st, s).next == Widened(st, s).(mem := WriteData(Widened(st, s).mem, a, s, n), line := st.line + 1)
  {
    DataLoads(st, s, r);
  }

  /** The offset within the bank plus the bank's start is the address. */
  lemma InBank(a: nat, offset: nat, base: nat)
    requires a < 0x100000 && offset == a % 0x10000 && base == a - a % 0x10000
    ensures (offset + base) % Wrap == a
  {
    assert offset + base == a;
  }

  /** The payload loop of the data record at `a` puts data[a..a + count)
      after data[0..a). */
  lemma ChunkLoaded(m: Mem, g: Mem, a: nat, n: nat, s: string)
    requires a + n <= |m.cells| && a + n <= Wrap && Payload(s, n) == m.cells[a..a + n]
    requires g.size == a && a <= |g.cells| && g.cells[..a] == m.cells[..a]
    ensures var h := WriteData(g, a, s, n);
      && (n > 0 ==> h.size == a + n) && a + n <= |h.cells| && h.cells[..a + n] == m.cells[..a + n]
  {
    var h := WriteData(g, a, s, n);
    WriteDataSize(g, a, s, n);
    Below(g, a, s, n);
    Within(g, a, s, n, m.cells[a..a + n]);
    Join(h.cells, m.cells, a, a + n);
  }

  /** Writes at a.. leave data[0..a) alone. */
  lemma Below(g: Mem, a: nat, s: string, n: nat)
    requires a + n <= Wrap && a <= |g.cells|
    ensures var h := WriteData(g, a, s, n); a <= |h.cells| && h.cells[..a] == g.cells[..a]
  {
    var h := WriteData(g, a, s, n);
    WriteDataFacts(g, a, s, n);
    forall k | 0 <= k < a
      ensures h.cells[..a][k] == g.cells[..a][k]
    {
      assert h.cells[k] == g.cells[k];
    }
  }

  /** Payload byte j written at a + j puts the payload at a..a + n. */
  lemma Within(g: Mem, a: nat, s: string, n: nat, p: seq<byte>)
    requires a + n <= Wrap && a <= |g.cells| && p == Payload(s, n)
    ensures var h := WriteData(g, a, s, n); a + n <= |h.cells| && h.cells[a..a + n] == p
  {
    var h := WriteData(g, a, s, n);
    WriteDataFacts(g, a, s, n);
    if n > 0 {
      var j := n - 1;
      assert ByteAt(s, 9 + 2 * j) == p[j];
    }
    forall j | 0 <= j < n
      ensures h.cells[a..a + n][j] == p[j]
    {
      assert ByteAt(s, 9 + 2 * j) == p[j];
    }
  }

  lemma Join(x: seq<byte>, y: seq<byte>, a: nat, b: nat)
    requires a <= b <= |x| && b <= |y| && x[..a] == y[..a] && x[a..b] == y[a..b]
    ensures x[..b] == y[..b]
  {
    assert x[..b] == x[..a] + x[a..b];
    assert y[..b] == y[..a] + y[a..b];
  }

  /** A start that is a multiple of the width is at least a width before
      the end of its 64 KiB bank, so the data record at it stays in the
      bank. */
  lemma SameBank(a: nat, w: nat, k: nat, n: nat)
    requires 1 <= w && 0x10000 % w == 0 && a == k * w && n <= w
    ensures (a + n) % 0x10000 != 0 ==> (a + n) - (a + n) % 0x10000 == a - a % 0x10000
  {
    var o, q := a % 0x10000, a / 0x10000;
    var j := 0x10000 / w;
    assert a == q * 0x10000 + o && 0x10000 == j * w;
    var t := k - q * j;
    assert o == t * w by {
      MulAssoc(q, j, w);
      MulDiff(k, q * j, w);
    }
    assert 0 <= t < j;
    assert o + w <= 0x10000 by {
      MulSucc(t, w);
      MulMono(t + 1, j, w);
    }
    if o + n < 0x10000 {
      assert (a + n) % 0x10000 == o + n;
    }
  }

  lemma MulAssoc(x: int, y: int, z: int)
    ensures x * (y * z) == (x * y) * z
  {
  }

  lemma MulDiff(x: int, y: int, z: int)
    ensures (x - y) * z == x * z - y * z
  {
  }

  lemma MulSucc(x: int, z: int)
    ensures (x + 1) * z == x * z + z
  {
  }

  lemma MulMono(x: nat, y: nat, z: nat)
    requires x <= y
    ensures x * z <= y * z
  {
  }

  /** At `size` only the end-of-file record is left: the load returns
      there with the buffer as it is. */
  lemma ReloadEnd(m: Mem, st: Loader)
    requires Reloadable(m) && LoadedUpTo(m, st, m.size)
    ensures Run(st, Render(DumpFrom(m, m.size))).1 == EndRecord
    ensures Run(st, Render(DumpFrom(m, m.size))).0.mem == Widen(st.mem, 0)
    ensures Safe(st, Render(DumpFrom(m, m.size)))
  {
    DumpAtEnd(m, m.size);
    RenderOne(EofRecord);
    LineReads(EofRecord);
    var s := Line(EofRecord);
    assert [s][0] == s;
  }

  /** Below `size`: the address record, if any, and the line of the data
      record at `a` take the loader from data[0..a) to data[0..next), next
      being the following start. */
  lemma ReloadStep(m: Mem, st: Loader, a: nat, k: nat, n: nat, next: nat, s: string, rest: seq<string>)
    returns (st2: Loader)
    requires Reloadable(m) && a < m.size && a == k * m.width && n == ChunkSize(m, a) && next == a + n
    requires LoadedUpTo(m, st, a) && ReadsAs(s, DataRecord(m, a))
    ensures Run(st, Render(Bank(a)) + ([s] + rest)) == Run(st2, rest)
    ensures Safe(st2, rest) ==> Safe(st, Render(Bank(a)) + ([s] + rest))
    ensures LoadedUpTo(m, st2, next)
  {
    var st1 := BankPart(st, a, [s] + rest);
    st2 := DataPart(m, st1, a, n, s, rest);
    NextLoaded(m, st2, a, k, n, next);
  }

  /** After the data record at `a` the buffer holds data[0..next), and the
      base is still the start of the bank of next unless next starts a bank. */
  lemma NextLoaded(m: Mem, st2: Loader, a: nat, k: nat, n: nat, next: nat)
    requires Reloadable(m) && a < m.size && a == k * m.width && n == ChunkSize(m, a) && next == a + n
    requires st2.base == a - a % 0x10000 && st2.mem.size == a + n
    requires a + n <= |st2.mem.cells| && st2.mem.cells[..a + n] == m.cells[..a + n]
    ensures LoadedUpTo(m, st2, next)
  {
    SameBank(a, m.width, k, n);
  }

  /** The start after the one at a multiple k of the width is the next
      multiple, unless it is `size`. */
  lemma NextStart(m: Mem, a: nat, k: nat, n: nat, next: nat)
    requires 1 <= m.width && a < m.size && a == k * m.width && n == ChunkSize(m, a) && next == a + n
    ensures next == (k + 1) * m.width || next == m.size
  {
    assert (k + 1) * m.width == k * m.width + m.width;
  }

  /** The dump of data[a..size), reloaded after data[0..a), completes the
      buffer and ends at the end-of-file record, every line safe. */
  lemma {:induction false} ReloadFrom(m: Mem, st: Loader, a: nat, k: nat)
    requires Reloadable(m) && a <= m.size && (a == k * m.width || a == m.size)
    requires LoadedUpTo(m, st, a)
    ensures Run(st, Render(DumpFrom(m, a))).1 == EndRecord
    ensures var last := Run(st, Render(DumpFrom(m, a))).0.mem;
      last.size == m.size && m.size <= |last.cells| && last.cells[..m.size] == m.cells[..m.size]
    ensures Safe(st, Render(DumpFrom(m, a)))
    decreases m.size - a
  {
    if a == m.size {
      ReloadEnd(m, st);
    } else {
      var st2, next := StepFrom(m, st, a, k);
      ReloadFrom(m, st2, next, k + 1);
    }
  }

  /** From a start below `size` to the next start. */
  lemma StepFrom(m: Mem, st: Loader, a: nat, k: nat) returns (st2: Loader, next: nat)
    requires Reloadable(m) && a < m.size && a == k * m.width
    requires LoadedUpTo(m, st, a)
    ensures a < next <= m.size && (next == (k + 1) * m.width || next == m.size)
    ensures LoadedUpTo(m, st2, next)
    ensures Run(st, Render(DumpFrom(m, a))) == Run(st2, Render(DumpFrom(m, next)))
    ensures Safe(st2, Render(DumpFrom(m, next))) ==> Safe(st, Render(DumpFrom(m, a)))
  {
    var n := ChunkSize(m, a);
    next := a + n;
    var s := DataLine(m, a, n, next);
    st2 := ReloadStep(m, st, a, k, n, next, s, Render(DumpFrom(m, next)));
    NextStart(m, a, k, n, next);
  }

  /** The lines from a start below `size` on: the address record, a line
      that reads as the data record, and the lines from the next start. */
  lemma DataLine(m: Mem, a: nat, n: nat, next: nat) returns (s: string)
    requires Reloadable(m) && a < m.size && n == ChunkSize(m, a) && next == a + n
    ensures ReadsAs(s, DataRecord(m, a))
    ensures Render(DumpFrom(m, a)) == Render(Bank(a)) + ([s] + Render(DumpFrom(m, next)))
  {
    var r := DataRecord(m, a);
    s := Line(r);
    RenderStep(m, a, n, next);
    LineReads(r);
    Assoc(Render(Bank(a)), s, Render(DumpFrom(m, next)));
  }

  lemma Assoc(x: seq<string>, s: string, z: seq<string>)
    ensures x + [s] + z == x + ([s] + z)
  {
  }

  /** hexdata_dump, then hexdata_load into a buffer fresh from hexdata_new:
      the load succeeds at the end-of-file record, reads every line safely,
      and the new buffer has the old `size` and data[0..size). */
  lemma RoundTrip(m: Mem, empty: byte)
    requires Reloadable(m)
    ensures var lines := Render(DumpFrom(m, 0));
      && Safe(Start(NewMem(empty)), lines)
      && Run(Start(NewMem(empty)), lines).1 == EndRecord
      && Run(Start(NewMem(empty)), lines).0.mem.size == m.size
      && m.size <= |Run(Start(NewMem(empty)), lines).0.mem.cells|
      && Run(Start(NewMem(empty)), lines).0.mem.cells[..m.size] == m.cells[..m.size]
  {
    ReloadFrom(m, Start(NewMem(empty)), 0, 0);
  }
}
