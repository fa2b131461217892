/** What hexdata_load (flhex.c:107-172) does, stated about the functions
    Step and Run of module Load that the method Load.Load is proved to
    follow. */
module LoadFacts {
  import opened Hex
  import opened PowerOfTwo
  import opened Memory
  import opened Records
  import opened Load

  // ---------------------------------------------------------------------
  // Data records

  /** The width and the padding byte survive any run of writes. */
  lemma {:induction false} WriteDataKeeps(m: Mem, a: nat, s: string, n: nat)
    ensures WriteData(m, a, s, n).width == m.width && WriteData(m, a, s, n).empty == m.empty
  {
    if n > 0 {
      WriteDataKeeps(m, a, s, n - 1);
      WriteFacts(WriteData(m, a, s, n - 1), (a + n - 1) % Wrap, ByteAt(s, 9 + 2 * (n - 1)));
    }
  }

  /** The payload loop of a data record (flhex.c:131-136) writes payload byte
      j, read at column 9 + 2j, at address a + j, and leaves every other old
      position alone. */
  lemma {:induction false} WriteDataFacts(m: Mem, a: nat, s: string, n: nat)
    requires a + n <= Wrap
    ensures var r := WriteData(m, a, s, n);
      && |m.cells| <= |r.cells|
      && (forall j :: 0 <= j < n ==> a + j < |r.cells| && r.cells[a + j] == ByteAt(s, 9 + 2 * j))
      && (forall k :: 0 <= k < |m.cells| && !(a <= k < a + n) ==> r.cells[k] == m.cells[k])
  {
    if n > 0 {
      var q := WriteData(m, a, s, n - 1);
      var b := ByteAt(s, 9 + 2 * (n - 1));
      WriteDataFacts(m, a, s, n - 1);
      NoWrap(a + n - 1);
      assert WriteData(m, a, s, n) == WriteMem(q, a + n - 1, b);
      WriteFacts(q, a + n - 1, b);
      WriteFrame(q, a + n - 1, b);
    }
  }

  /** ... and moves `size` past the last address written. */
  lemma {:induction false} WriteDataSize(m: Mem, a: nat, s: string, n: nat)
    requires a + n <= Wrap
    ensures WriteData(m, a, s, n).size == if n == 0 || a + n <= m.size then m.size else a + n
  {
    if n > 0 {
      WriteDataSize(m, a, s, n - 1);
      NoWrap(a + n - 1);
      WriteFacts(WriteData(m, a, s, n - 1), a + n - 1, ByteAt(s, 9 + 2 * (n - 1)));
    }
  }

  /** A data record's payload is in the buffer whether or not its checksum
      then passes: on a failed test the load stops with the bytes written. */
  lemma DataPersists(st: Loader, s: string)
    requires HeaderOk(s) && RecType(s) == DataType
    requires (Address(s) + st.base) % Wrap + Count(s) <= Wrap
    requires (ByteAt(s, 9 + 2 * Count(s)) + DataSum(HeaderByte(s), s, Count(s))) % 256 != 0
    ensures Step(st, s).Halt? && Step(st, s).outcome.BadChecksum?
    ensures var a, r := (Address(s) + st.base) % Wrap, Step(st, s).last.mem;
      forall j :: 0 <= j < Count(s) ==> a + j < |r.cells| && r.cells[a + j] == ByteAt(s, 9 + 2 * j)
  {
    StepData(st, s);
    WriteDataFacts(Widen(st.mem, Count(s)), (Address(s) + st.base) % Wrap, s, Count(s));
  }

  /** The uint8 running sum of the payload loop is the payload's sum mod 256. */
  lemma {:induction false} DataSumIsSum(start: byte, s: string, n: nat)
    ensures DataSum(start, s, n) == (start + Sum(Payload(s, n))) % 256
  {
    if n > 0 {
      var p := Payload(s, n);
      assert p[..n - 1] == Payload(s, n - 1);
      DataSumIsSum(start, s, n - 1);
      AddMod(start + Sum(Payload(s, n - 1)), p[n - 1]);
    }
  }

  /** The loader's uint8 sum tests the checksum of write_record: a header
      byte computed as flhex.c:120 does, plus the payload, plus the found
      byte is 0 mod 256 exactly when the found byte is the record's
      checksum. */
  lemma SumAgrees(count: byte, addr: nat, rtype: byte, p: seq<byte>, head: byte, sum: byte, found: byte)
    requires addr < 0x10000
    requires head == (count + addr + addr / 256 + rtype) % 256 && sum == (head + Sum(p)) % 256
    ensures (found + sum) % 256 == 0 <==> found == Checksum(count, addr, rtype, p)
  {
    var h := HeaderSum(count, addr, rtype);
    assert head == h % 256 by {
      HeaderSumMod(count, addr, rtype);
    }
    assert sum == (h + Sum(p)) % 256 by {
      AddMod(h, Sum(p));
    }
    Negation(sum, found);
  }

  /** A uint8 sum is brought to zero exactly by its uint8 negation. */
  lemma Negation(sum: byte, found: byte)
    ensures (found + sum) % 256 == 0 <==> found == (256 - sum) % 256
  {
  }

  /** The checksum test passes exactly when the found byte brings the sum
      to zero. */
  lemma CheckPasses(st: Loader, s: string, i: nat, sum: byte)
    ensures Check(st, s, i, sum).Continue? <==> (ByteAt(s, i) + sum) % 256 == 0
  {
  }

  /** A data record passes its checksum test exactly when its checksum byte
      is the one write_record computes for its header and payload. */
  lemma DataChecksum(st: Loader, s: string)
    requires HeaderOk(s) && RecType(s) == DataType
    ensures Step(st, s).Continue?
      <==> ByteAt(s, 9 + 2 * Count(s)) == Checksum(Count(s), Address(s), DataType, Payload(s, Count(s)))
  {
    StepData(st, s);
    DataSumIsSum(HeaderByte(s), s, Count(s));
    SumAgrees(Count(s), Address(s), DataType, Payload(s, Count(s)),
              HeaderByte(s), DataSum(HeaderByte(s), s, Count(s)), ByteAt(s, 9 + 2 * Count(s)));
  }

  // ---------------------------------------------------------------------
  // Address records

  /** The two bytes of V are what the checksum adds (flhex.c:142, 150). */
  lemma WordSum(head: byte, s: string)
    ensures var v := WordAt(s, 9);
      (head + v + v / 256) % 256 == (head + Sum([ByteAt(s, 9), ByteAt(s, 11)])) % 256
  {
    var hi, lo := ByteAt(s, 9), ByteAt(s, 11);
    var v := WordAt(s, 9);
    assert Sum([hi, lo]) == hi + lo by {
      assert [hi, lo][..1] == [hi] && [hi][..0] == [];
      assert Sum([hi]) == hi;
    }
    assert v / 256 == hi;
    assert head + v + v / 256 == 256 * hi + (head + hi + lo);
  }

  /** An extended segment or extended linear address record passes its
      checksum test exactly when its checksum byte, at column 13, is the one
      write_record computes over the header and the two bytes of V. */
  lemma AddressChecksum(st: Loader, s: string)
    requires HeaderOk(s) && (RecType(s) == SegmentType || RecType(s) == LinearType)
    ensures Step(st, s).Continue?
      <==> ByteAt(s, 13) == Checksum(Count(s), Address(s), RecType(s), [ByteAt(s, 9), ByteAt(s, 11)])
  {
    var v := WordAt(s, 9);
    var sum := (HeaderByte(s) + v + v / 256) % 256;
    if RecType(s) == SegmentType {
      StepSegment(st, s);
      CheckPasses(Widened(st, s).(base := v * 16), s, 13, sum);
    } else {
      StepLinear(st, s);
      CheckPasses(Widened(st, s).(base := LinearBase(st.base, v)), s, 13, sum);
    }
    WordSum(HeaderByte(s), s);
    SumAgrees(Count(s), Address(s), RecType(s), [ByteAt(s, 9), ByteAt(s, 11)],
              HeaderByte(s), sum, ByteAt(s, 13));
  }

  /** The start segment address record is checked against the byte at
      column 9, the first byte of its payload, with a sum that leaves the
      payload out (flhex.c:146-147, 162). */
  lemma StartSegmentChecksum(st: Loader, s: string)
    requires HeaderOk(s) && RecType(s) == StartSegmentType
    ensures Step(st, s).Continue?
      <==> ByteAt(s, 9) == Checksum(Count(s), Address(s), StartSegmentType, [])
    ensures Step(st, s).Continue? ==> Step(st, s).next == Widened(st, s).(line := st.line + 1)
  {
    StepStartSegment(st, s);
    CheckPasses(Widened(st, s), s, 9, HeaderByte(s));
    assert Sum([]) == 0;
    SumAgrees(Count(s), Address(s), StartSegmentType, [], HeaderByte(s), HeaderByte(s), ByteAt(s, 9));
  }

  /** So a start segment address record as the format lays it out (CS = 0,
      IP = 0x3800, checksum 0xC1) fails the load with a checksum error on
      its line. */
  lemma StandardStartSegmentRejected(st: Loader)
    ensures Step(st, ":0400000300003800C1").Halt?
    ensures Step(st, ":0400000300003800C1").outcome == BadChecksum(st.line, 0xF9, 0)
  {
    var s := ":0400000300003800C1";
    assert Readable(s, 1, 8);
    assert Count(s) == 4 && Address(s) == 0 && RecType(s) == StartSegmentType && ByteAt(s, 9) == 0;
    StepStartSegment(st, s);
  }

  /** With a zero high half, the linear base is V << 16. */
  lemma LinearBaseFresh(base: nat, v: nat)
    requires base < 0x10000
    ensures LinearBase(base, v) == v * 0x10000
  {
  }

  /** The linear base of flhex.c:151-152 is a multiple of 0x10000 below
      2^32, and its high half is the old high half ORed with V. */
  lemma LinearBaseFits(base: nat, v: nat)
    requires base < Wrap && v < 0x10000
    ensures LinearBase(base, v) % 0x10000 == 0 && LinearBase(base, v) < Wrap
    ensures LinearBase(base, v) / 0x10000 == BitOr(base / 0x10000, v)
  {
    PowersArePow2(16);
    BitOrBelow(base / 0x10000, v, 16);
  }

  /** The merge keeps old high bits: after an extended linear address record
      with V = 1 has set `base_addr` to 0x10000, one with V = 2 sets it to
      0x30000, not 0x20000. */
  lemma LinearMerge()
    ensures LinearBase(0, 1) == 0x10000
    ensures LinearBase(0x10000, 2) == 0x30000
  {
    assert BitOr(1, 2) == 2 * BitOr(0, 1) + 1;
  }

  /** `base_addr` stays a uint32 from line to line. */
  lemma StepBaseFits(st: Loader, s: string)
    requires st.base < Wrap
    ensures StateOf(Step(st, s)).base < Wrap
  {
    if HeaderOk(s) {
      if RecType(s) == SegmentType {
        StepSegment(st, s);
      } else if RecType(s) == LinearType {
        StepLinear(st, s);
        LinearBaseFits(st.base, WordAt(s, 9));
      } else if RecType(s) == DataType {
        StepData(st, s);
      } else if RecType(s) == StartSegmentType {
        StepStartSegment(st, s);
      }
    }
  }

  // ---------------------------------------------------------------------
  // Width, outcome, and where a load stops

  /** flhex.c:122-124: every parsed header, whatever its type, widens the
      record width to its count if that is larger; a malformed header
      changes nothing. */
  lemma StepWidth(st: Loader, s: string)
    ensures StateOf(Step(st, s)).mem.width
      == if HeaderOk(s) && Count(s) > st.mem.width then Count(s) else st.mem.width
  {
    if HeaderOk(s) {
      if RecType(s) == DataType {
        StepData(st, s);
        WriteDataKeeps(Widen(st.mem, Count(s)), (Address(s) + st.base) % Wrap, s, Count(s));
      } else if RecType(s) == SegmentType {
        StepSegment(st, s);
      } else if RecType(s) == StartSegmentType {
        StepStartSegment(st, s);
      } else if RecType(s) == LinearType {
        StepLinear(st, s);
      }
    }
  }

  /** The number of lines a load reads: up to and including the one it
      returns at, or all of them. */
  function Consumed(st: Loader, lines: seq<string>): (n: nat)
    ensures n <= |lines|
    decreases |lines|
  {
    if |lines| == 0 then 0
    else
      match Step(st, lines[0])
      case Continue(next) => 1 + Consumed(next, lines[1..])
      case Halt(_, _) => 1
  }

  /** The width after the headers of `lines`, each widening it to its count. */
  function WidthAfter(w: byte, lines: seq<string>): byte
    decreases |lines|
  {
    if |lines| == 0 then w
    else
      var s := lines[0];
      WidthAfter(if HeaderOk(s) && Count(s) > w then Count(s) else w, lines[1..])
  }

  /** After a load the width is the largest of its old value and the count
      of every header parsed, the last line read included. */
  lemma {:induction false} RunWidth(st: Loader, lines: seq<string>)
    ensures Run(st, lines).0.mem.width == WidthAfter(st.mem.width, lines[..Consumed(st, lines)])
    decreases |lines|
  {
    if |lines| > 0 {
      var s := lines[0];
      var n := Consumed(st, lines);
      StepWidth(st, s);
      assert lines[..n][0] == s;
      match Step(st, s)
      case Continue(next) =>
        RunWidth(next, lines[1..]);
        assert lines[..n][1..] == lines[1..][..n - 1];
      case Halt(_, _) =>
        assert lines[..n][1..] == [];
    }
  }

  /** The width never shrinks below where it started: a buffer from
      hexdata_new records at least 16 bytes per line when dumped. */
  lemma {:induction false} WidthAfterGrows(w: byte, lines: seq<string>)
    ensures w <= WidthAfter(w, lines)
    decreases |lines|
  {
    if |lines| > 0 {
      var s := lines[0];
      WidthAfterGrows(if HeaderOk(s) && Count(s) > w then Count(s) else w, lines[1..]);
    }
  }

  /** Nothing after the line a load returns at is read: when a load
      returns before the input ends, more input changes nothing. */
  lemma {:induction false} RunIgnoresRest(st: Loader, a: seq<string>, b: seq<string>)
    requires Run(st, a).1 != EndOfInput
    ensures Run(st, a + b) == Run(st, a)
    decreases |a|
  {
    assert |a| > 0;
    assert (a + b)[0] == a[0];
    match Step(st, a[0])
    case Continue(next) =>
      assert (a + b)[1..] == a[1..] + b;
      RunIgnoresRest(next, a[1..], b);
    case Halt(_, _) =>
  }

  /** A load that reads all of its input ends in the state after the last
      line, and the next input carries on from there. */
  lemma {:induction false} RunConcat(st: Loader, a: seq<string>, b: seq<string>)
    requires Run(st, a).1 == EndOfInput
    ensures Run(st, a + b) == Run(Run(st, a).0, b)
    decreases |a|
  {
    if |a| == 0 {
      assert a + b == b;
    } else {
      assert (a + b)[0] == a[0];
      match Step(st, a[0])
      case Continue(next) =>
        assert (a + b)[1..] == a[1..] + b;
        RunConcat(next, a[1..], b);
      case Halt(_, _) =>
    }
  }

  /** The outcome of one line (flhex.c:115-166): a malformed header, an
      end-of-file record (checksum unread), an unsupported type, or a failed
      checksum test; every other line goes on with the next. */
  lemma StepOutcome(st: Loader, s: string)
    ensures Step(st, s) == Halt(st, MalformedHeader(st.line)) <==> !HeaderOk(s)
    ensures (Step(st, s).Halt? && Step(st, s).outcome == EndRecord)
      <==> HeaderOk(s) && RecType(s) == EndOfFileType
    ensures (Step(st, s).Halt? && Step(st, s).outcome == Unsupported(st.line, RecType(s)))
      <==> HeaderOk(s) && RecType(s) > LinearType
    ensures (Step(st, s).Halt? && Step(st, s).outcome.BadChecksum?)
      <==> HeaderOk(s) && RecType(s) != EndOfFileType && RecType(s) <= LinearType && !Step(st, s).Continue?
    ensures Step(st, s).Continue? ==> Step(st, s).next.line == st.line + 1
  {
  }

  /** A line at which hexdata_load returns 1 (flhex.c:115-166): its header
      does not parse, its type is unsupported, or its checksum test fails. */
  predicate Fails(st: Loader, s: string)
  {
    || !HeaderOk(s)
    || RecType(s) > LinearType
    || (RecType(s) != EndOfFileType && Step(st, s).Halt?)
  }

  /** A load returns 1 exactly when some line it reaches, every line before
      it having gone on, fails; otherwise it returns 0, at the first
      end-of-file record or at the end of the input. */
  lemma {:induction false} RunStatus(st: Loader, lines: seq<string>)
    ensures Status(Run(st, lines).1) == 1 <==>
      exists i :: 0 <= i < |lines| && Run(st, lines[..i]).1 == EndOfInput && Fails(Run(st, lines[..i]).0, lines[i])
    decreases |lines|
  {
    if |lines| > 0 {
      var s := lines[0];
      StepOutcome(st, s);
      assert lines[..0] == [];
      match Step(st, s)
      case Continue(next) =>
        RunStatus(next, lines[1..]);
        forall i | 0 < i <= |lines[1..]|
          ensures Run(st, lines[..i]) == Run(next, lines[1..][..i - 1])
        {
          assert lines[..i][0] == s;
          assert lines[..i][1..] == lines[1..][..i - 1];
        }
        if Status(Run(st, lines).1) == 1 {
          var i :| 0 <= i < |lines[1..]| && Run(next, lines[1..][..i]).1 == EndOfInput
            && Fails(Run(next, lines[1..][..i]).0, lines[1..][i]);
          assert Run(st, lines[..i + 1]) == Run(next, lines[1..][..i]);
          assert lines[i + 1] == lines[1..][i];
        }
        if exists i :: 0 <= i < |lines| && Run(st, lines[..i]).1 == EndOfInput && Fails(Run(st, lines[..i]).0, lines[i]) {
          var i :| 0 <= i < |lines| && Run(st, lines[..i]).1 == EndOfInput && Fails(Run(st, lines[..i]).0, lines[i]);
          assert i > 0;
          assert Run(st, lines[..i]) == Run(next, lines[1..][..i - 1]);
          assert lines[1..][i - 1] == lines[i];
        }
      case Halt(_, _) =>
        forall i | 0 < i < |lines|
          ensures Run(st, lines[..i]).1 != EndOfInput
        {
          assert lines[..i][0] == s;
        }
    }
  }
}
