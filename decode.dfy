/** hexdata_load (flhex.c:107-172): reading Intel HEX record lines into the
    buffer. Step and Run say what one line and a whole input do to the
    loader's state (buffer, `base_addr`, `line`); the method Load is the loop
    of flhex.c:112-169 over a HexData object and is proved to follow Run. */
module Load {
  import opened Hex
  import opened PowerOfTwo
  import opened Memory
  import opened Records
  import Buffer

  /** The modulus of uint32 arithmetic. */
  const Wrap: nat := 0x1_0000_0000

  /** Bitwise OR of two naturals. */
  function BitOr(a: nat, b: nat): nat
    decreases a + b
  {
    if a == 0 then b
    else if b == 0 then a
    else 2 * BitOr(a / 2, b / 2) + (if a % 2 == 1 || b % 2 == 1 then 1 else 0)
  }

  /** OR stays within k bits. */
  lemma {:induction false} BitOrBelow(a: nat, b: nat, k: nat)
    requires a < Pow2(k) && b < Pow2(k)
    ensures BitOr(a, b) < Pow2(k)
    decreases a + b
  {
    if a != 0 && b != 0 {
      BitOrBelow(a / 2, b / 2, k - 1);
    }
  }

  /** The extended linear address update of flhex.c:151-152: keep the high
      half of `base_addr`, clear the low half, then OR `val << 16` into it.
      The old high half is merged with V, not replaced by it. */
  function LinearBase(base: nat, v: nat): nat
  {
    BitOr(base / 0x10000, v) * 0x10000
  }

  /** The state hexdata_load carries from line to line. */
  datatype Loader = Loader(mem: Mem, base: nat, line: nat)

  /** At the call: the buffer as given, `base_addr` 0, `line` 1. */
  function Start(m: Mem): Loader
  {
    Loader(m, 0, 1)
  }

  /** How a load ends. The first two return 0, the others 1 (after a
      message naming the line, flhex.c:116, 157, 164). */
  datatype Outcome =
    | EndOfInput
    | EndRecord
    | MalformedHeader(line: nat)
    | Unsupported(line: nat, rtype: byte)
    | BadChecksum(line: nat, expected: byte, found: byte)

  /** The value hexdata_load returns. */
  function Status(o: Outcome): (r: int)
    ensures r == 0 || r == 1
    ensures r == 0 <==> o.EndOfInput? || o.EndRecord?
  {
    if o.EndOfInput? || o.EndRecord? then 0 else 1
  }

  /** `sscanf(buff, ":%2X%4X%2X")` matches all three fields (flhex.c:115). */
  predicate HeaderOk(s: string)
  {
    |s| >= 9 && s[0] == ':' && Readable(s, 1, 8)
  }

  function Count(s: string): byte { ByteAt(s, 1) }
  function Address(s: string): nat { WordAt(s, 3) }
  function RecType(s: string): byte { ByteAt(s, 7) }

  /** flhex.c:122-124: the record width grows to the largest count seen. */
  function Widen(m: Mem, count: byte): Mem
  {
    if count > m.width then m.(width := count) else m
  }

  /** The payload bytes of a data record, read at columns 9, 11, ... */
  function Payload(s: string, count: nat): (p: seq<byte>)
    ensures |p| == count
  {
    seq(count, j requires 0 <= j => ByteAt(s, 9 + 2 * j))
  }

  /** The write loop of flhex.c:131-136 after n bytes: payload byte j, read
      at column 9 + 2j, has been written at a + j, the address wrapping as a
      uint32. */
  function WriteData(m: Mem, a: nat, s: string, n: nat): Mem
  {
    if n == 0 then m
    else WriteMem(WriteData(m, a, s, n - 1), (a + n - 1) % Wrap, ByteAt(s, 9 + 2 * (n - 1)))
  }

  /** The uint8 checksum of flhex.c:134 after n payload bytes are added to
      `start`. */
  function DataSum(start: byte, s: string, n: nat): byte
  {
    if n == 0 then start else (DataSum(start, s, n - 1) + ByteAt(s, 9 + 2 * (n - 1))) % 256
  }

  /** uint32 arithmetic below 2^32 does not wrap. */
  lemma NoWrap(x: nat)
    requires x < Wrap
    ensures x % Wrap == x
  {
  }

  /** The write loop one byte further, where the address has not wrapped. */
  lemma WriteDataStep(m: Mem, a: nat, s: string, j: nat)
    requires a + j < Wrap
    ensures WriteData(m, a, s, j + 1) == WriteMem(WriteData(m, a, s, j), a + j, ByteAt(s, 9 + 2 * j))
  {
    NoWrap(a + j);
  }

  /** The checksum loop one byte further. */
  lemma DataSumStep(start: byte, s: string, j: nat, sum: byte, val: byte)
    requires sum == DataSum(start, s, j) && val == ByteAt(s, 9 + 2 * j)
    ensures (sum + val) % 256 == DataSum(start, s, j + 1)
  {
  }

  /** What one line does. */
  datatype Effect = Continue(next: Loader) | Halt(last: Loader, outcome: Outcome)

  function StateOf(r: Effect): Loader
  {
    if r.Continue? then r.next else r.last
  }

  /** The checksum test of flhex.c:161-168: the byte at column i must bring
      the uint8 sum to zero; on success the line counter advances. */
  function Check(st: Loader, s: string, i: nat, sum: byte): Effect
  {
    var found := ByteAt(s, i);
    if (found + sum) % 256 != 0 then Halt(st, BadChecksum(st.line, (256 - sum) % 256, found))
    else Continue(st.(line := st.line + 1))
  }

  /** The uint8 header checksum of flhex.c:120. */
  function HeaderByte(s: string): byte
  {
    (Count(s) + Address(s) + Address(s) / 256 + RecType(s)) % 256
  }

  /** The state once the header is read: the width updated. */
  function Widened(st: Loader, s: string): Loader
  {
    st.(mem := Widen(st.mem, Count(s)))
  }

  /** One pass of the loop body flhex.c:113-168. */
  function Step(st: Loader, s: string): Effect
  {
    if !HeaderOk(s) then Halt(st, MalformedHeader(st.line))
    else
      var w, rtype := Widened(st, s), RecType(s);
      if rtype == DataType then
        var a := (Address(s) + st.base) % Wrap;
        Check(w.(mem := WriteData(w.mem, a, s, Count(s))), s, 9 + 2 * Count(s), DataSum(HeaderByte(s), s, Count(s)))
      else if rtype == EndOfFileType then
        Halt(w, EndRecord)
      else if rtype == SegmentType then
        var v := WordAt(s, 9);
        Check(w.(base := v * 16), s, 13, (HeaderByte(s) + v + v / 256) % 256)
      else if rtype == StartSegmentType then
        Check(w, s, 9, HeaderByte(s))
      else if rtype == LinearType then
        var v := WordAt(s, 9);
        Check(w.(base := LinearBase(st.base, v)), s, 13, (HeaderByte(s) + v + v / 256) % 256)
      else
        Halt(w, Unsupported(st.line, rtype))
  }

  /** A data record writes its payload from `base_addr` + addr on, then has
      its checksum tested after the payload, whatever the test says. */
  lemma StepData(st: Loader, s: string)
    requires HeaderOk(s) && RecType(s) == DataType
    ensures var w := Widened(st, s);
      Step(st, s) == Check(w.(mem := WriteData(w.mem, (Address(s) + st.base) % Wrap, s, Count(s))),
                           s, 9 + 2 * Count(s), DataSum(HeaderByte(s), s, Count(s)))
  {
  }

  /** An extended segment address record sets `base_addr` to V * 16. */
  lemma StepSegment(st: Loader, s: string)
    requires HeaderOk(s) && RecType(s) == SegmentType
    ensures var v := WordAt(s, 9);
      Step(st, s) == Check(Widened(st, s).(base := v * 16), s, 13, (HeaderByte(s) + v + v / 256) % 256)
  {
  }

  /** A start segment address record changes nothing but the width, and its
      checksum is read at column 9, where its payload starts. */
  lemma StepStartSegment(st: Loader, s: string)
    requires HeaderOk(s) && RecType(s) == StartSegmentType
    ensures Step(st, s) == Check(Widened(st, s), s, 9, HeaderByte(s))
  {
  }

  /** An extended linear address record ORs V into the high half of
      `base_addr` and clears its low half. */
  lemma StepLinear(st: Loader, s: string)
    requires HeaderOk(s) && RecType(s) == LinearType
    ensures var v := WordAt(s, 9);
      Step(st, s) == Check(Widened(st, s).(base := LinearBase(st.base, v)), s, 13, (HeaderByte(s) + v + v / 256) % 256)
  {
  }

  /** The whole loop of flhex.c:112-171: lines are processed until one halts
      the load or the input ends. */
  function Run(st: Loader, lines: seq<string>): (Loader, Outcome)
    decreases |lines|
  {
    if |lines| == 0 then (st, EndOfInput)
    else
      match Step(st, lines[0])
      case Continue(next) => Run(next, lines[1..])
      case Halt(last, outcome) => (last, outcome)
  }

  // ---------------------------------------------------------------------
  // What the source needs of its input.

  /** The writes a + 0 .. a + count - 1 stay below 2^31, where hexdata_write
      can round its capacity up without wrapping. */
  predicate WritesFit(a: nat, count: nat)
  {
    count == 0 || a + count <= MaxCapacity
  }

  /** A line that fgets delivers whole and whose fields, for its record type,
      are all there. Each line includes its trailing newline, as fgets
      returns it, so `|s| < 256` means it fits the 256-byte buffer: sscanf is never left without digits (which would leave
      `val` stale), and the data it writes stays addressable. */
  predicate LineSafe(st: Loader, s: string)
  {
    && |s| < 256
    && (HeaderOk(s) ==>
      var count, rtype := Count(s), RecType(s);
      && (rtype == DataType ==>
          Readable(s, 9, 2 * count + 2) && WritesFit((st.base + Address(s)) % Wrap, count))
      && (rtype == SegmentType || rtype == LinearType ==> Readable(s, 9, 6))
      && (rtype == StartSegmentType ==> Readable(s, 9, 2)))
  }

  /** Every line the load reaches is safe. */
  predicate Safe(st: Loader, lines: seq<string>)
    decreases |lines|
  {
    |lines| > 0 ==>
      && LineSafe(st, lines[0])
      && (Step(st, lines[0]).Continue? ==> Safe(Step(st, lines[0]).next, lines[1..]))
  }

  // ---------------------------------------------------------------------
  // The loop itself.

  /** hexdata_load on a HexData object: the loop of flhex.c:112-171, with
      the input given as the lines fgets returns. */
  method Load(h: Buffer.HexData, lines: seq<string>) returns (outcome: Outcome)
    requires h.Valid() && Safe(Start(h.Abs()), lines)
    modifies h, h.data
    ensures h.Valid()
    ensures h.Abs() == Run(Start(old(h.Abs())), lines).0.mem
    ensures outcome == Run(Start(old(h.Abs())), lines).1
  {
    ghost var start := Start(h.Abs());
    var line: nat := 1;
    var base: nat := 0;
    var k := 0;
    while k < |lines|
      invariant k <= |lines|
      invariant h.Valid()
      invariant h.data == old(h.data) || fresh(h.data)
      invariant Safe(Loader(h.Abs(), base, line), lines[k..])
      invariant Run(Loader(h.Abs(), base, line), lines[k..]) == Run(start, lines)
      decreases |lines| - k
    {
      assert lines[k..][0] == lines[k] && lines[k..][1..] == lines[k + 1..];
      var stop;
      base, stop, outcome := LoadLine(h, lines[k], base, line);
      if stop {
        return;
      }
      line := line + 1;
      k := k + 1;
    }
    return EndOfInput;
  }


  /** One pass of the loop body, flhex.c:113-166: `stop` says that
      hexdata_load returns `outcome` here. The switch of flhex.c:127-159 is
      split in two: the record types that return at once are handled here,
      the ones that go on to the checksum test in LoadRecord. */
  method LoadLine(h: Buffer.HexData, s: string, base: nat, line: nat)
    returns (newBase: nat, stop: bool, outcome: Outcome)
    requires h.Valid() && LineSafe(Loader(h.Abs(), base, line), s)
    modifies h, h.data
    ensures h.Valid()
    ensures h.data == old(h.data) || fresh(h.data)
    ensures stop ==> Step(Loader(old(h.Abs()), base, line), s) == Halt(Loader(h.Abs(), newBase, line), outcome)
    ensures !stop ==> Step(Loader(old(h.Abs()), base, line), s) == Continue(Loader(h.Abs(), newBase, line + 1))
  {
    ghost var st := Loader(h.Abs(), base, line);
    newBase, stop, outcome := base, true, EndOfInput;
    if !HeaderOk(s) {
      outcome := MalformedHeader(line);
      return;
    }
    var count, addr, rtype := ByteAt(s, 1), WordAt(s, 3), ByteAt(s, 7);
    var checksum: byte := (count + addr + addr / 256 + rtype) % 256;
    if count > h.width && count <= 256 {
      h.width := count;
    }
    assert h.Abs() == Widened(st, s).mem;
    if rtype == EndOfFileType {
      outcome := EndRecord;
      return;
    } else if rtype > LinearType {
      outcome := Unsupported(line, rtype);
      return;
    }
    var i;
    newBase, i, checksum := LoadRecord(h, s, rtype, count, addr, base, checksum, st);
    ghost var next := Loader(h.Abs(), newBase, line);
    stop, outcome := TestChecksum(s, i, checksum, line, next);
  }

  /** The cases of flhex.c:128-154 that read on: the payload of a data
      record is loaded (LoadData), an address record sets `base_addr`, a
      start segment record is skipped. `i` ends at the checksum column. */
  method LoadRecord(h: Buffer.HexData, s: string, rtype: byte, count: byte, addr: nat, base: nat,
                    checksum: byte, ghost st: Loader)
    returns (newBase: nat, i: nat, sum: byte)
    requires HeaderOk(s) && rtype == RecType(s) && rtype != EndOfFileType && rtype <= LinearType
    requires count == Count(s) && addr == Address(s) && base == st.base
    requires checksum == HeaderByte(s)
    requires h.Valid() && h.Abs() == Widened(st, s).mem && LineSafe(st, s)
    modifies h, h.data
    ensures h.Valid()
    ensures h.data == old(h.data) || fresh(h.data)
    ensures Step(st, s) == Check(Loader(h.Abs(), newBase, st.line), s, i, sum)
  {
    newBase, i, sum := base, 9, checksum;
    if rtype == DataType {
      ghost var w := h.Abs();
      var a := (addr + base) % Wrap;
      sum := LoadData(h, s, count, a, sum);
      i := i + 2 * count;
      StepData(st, s);
      assert h.Abs() == WriteData(w, a, s, count);
    } else if rtype == SegmentType {
      var val := WordAt(s, i);
      sum := (sum + val + val / 256) % 256;
      newBase := val * 16;
      i := i + 4;
      StepSegment(st, s);
    } else if rtype == StartSegmentType {
      // start segment address: ignored, and `i` stays at 9
      StepStartSegment(st, s);
    } else {
      var val := WordAt(s, i);
      sum := (sum + val + val / 256) % 256;
      newBase := LinearBase(base, val);
      i := i + 4;
      StepLinear(st, s);
    }
  }

  /** The checksum test of flhex.c:161-166, the byte at column i against the
      uint8 sum; `bad` says the load fails here. */
  method TestChecksum(s: string, i: nat, checksum: byte, line: nat, ghost st: Loader)
    returns (bad: bool, outcome: Outcome)
    requires st.line == line
    ensures bad ==> Check(st, s, i, checksum) == Halt(st, outcome)
    ensures !bad ==> Check(st, s, i, checksum) == Continue(st.(line := st.line + 1))
  {
    var val := ByteAt(s, i);
    bad := (val + checksum) % 256 != 0;
    outcome := BadChecksum(line, (256 - checksum) % 256, val);
  }

  /** The data record loop of flhex.c:131-136: `count` bytes read from
      column 9 on are written to consecutive uint32 addresses from `a` and
      added to the uint8 checksum. */
  method LoadData(h: Buffer.HexData, s: string, count: byte, a: nat, checksum: byte)
    returns (sum: byte)
    requires h.Valid() && a < Wrap && WritesFit(a, count)
    modifies h, h.data
    ensures h.Valid()
    ensures h.data == old(h.data) || fresh(h.data)
    ensures h.Abs() == WriteData(old(h.Abs()), a, s, count)
    ensures sum == DataSum(checksum, s, count)
  {
    ghost var w := h.Abs();
    var addr := a;
    var i := 9;
    sum := checksum;
    for j := 0 to count
      invariant i == 9 + 2 * j && addr == a + j
      invariant h.data == old(h.data) || fresh(h.data)
      invariant h.Valid() && h.Abs() == WriteData(w, a, s, j)
      invariant sum == DataSum(checksum, s, j)
    {
      var val := ByteAt(s, i);
      WriteDataStep(w, a, s, j);
      DataSumStep(checksum, s, j, sum, val);
      h.Write(addr, val);
      sum := (sum + val) % 256;
      // no wrap: WritesFit keeps addr + 1 below 2^31
      addr := addr + 1;
      i := i + 2;
    }
  }
}
