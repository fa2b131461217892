/** One Intel HEX record line as write_record writes it (flhex.c:174-185):
    ':' + count + address + type + payload + checksum + newline, every field in
    upper-case hex, and the checksum that makes the record's bytes sum to
    0 mod 256. */
module Records {
  import opened Hex

  /** The record types this program reads or writes. */
  const DataType: byte := 0x00
  const EndOfFileType: byte := 0x01
  const SegmentType: byte := 0x02
  const StartSegmentType: byte := 0x03
  const LinearType: byte := 0x04

  /** The plain sum of a run of bytes. */
  function Sum(p: seq<byte>): nat
  {
    if |p| == 0 then 0 else Sum(p[..|p| - 1]) + p[|p| - 1]
  }

  /** The header's share of the checksum: count, both address bytes, type. */
  function HeaderSum(count: byte, addr: nat, rtype: byte): nat
  {
    count + addr / 256 + addr % 256 + rtype
  }

  /** The uint8 `-checksum` of flhex.c:179: the byte that completes the sum
      of header and payload to a multiple of 256. */
  function Checksum(count: byte, addr: nat, rtype: byte, data: seq<byte>): byte
  {
    (256 - (HeaderSum(count, addr, rtype) + Sum(data)) % 256) % 256
  }

  /** The checksum law of the record format: header bytes, payload and
      checksum add up to 0 mod 256, and no other byte does. */
  lemma ChecksumLaw(count: byte, addr: nat, rtype: byte, data: seq<byte>, c: byte)
    ensures (HeaderSum(count, addr, rtype) + Sum(data) + c) % 256 == 0
      <==> c == Checksum(count, addr, rtype, data)
  {
    Complement(HeaderSum(count, addr, rtype) + Sum(data), c);
  }

  /** c completes x to a multiple of 256 exactly when it is -x as a uint8. */
  lemma Complement(x: nat, c: byte)
    ensures (x + c) % 256 == 0 <==> c == (256 - x % 256) % 256
  {
    var q, r := x / 256, x % 256;
    assert x + c == 256 * q + (r + c);
    assert (x + c) % 256 == (r + c) % 256;
  }

  /** The nine characters before the payload: ':', count, address, type. */
  function Header(count: byte, addr: nat, rtype: byte): (h: string)
    requires addr < 0x10000
    ensures |h| == 9
  {
    ":" + Hex2(count) + Hex4(addr) + Hex2(rtype)
  }

  /** The text write_record writes. */
  function Encode(count: byte, addr: nat, rtype: byte, data: seq<byte>): string
    requires addr < 0x10000
  {
    Header(count, addr, rtype) + HexBytes(data) + Hex2(Checksum(count, addr, rtype, data)) + "\n"
  }

  /** The header reads back: ':' and then count, address and type at the
      columns sscanf reads them from (flhex.c:115). */
  lemma HeaderFields(count: byte, addr: nat, rtype: byte)
    requires addr < 0x10000
    ensures var h := Header(count, addr, rtype);
      && h[0] == ':' && Readable(h, 1, 8)
      && ByteAt(h, 1) == count && WordAt(h, 3) == addr && ByteAt(h, 7) == rtype
  {
    var h, c, a, t := Header(count, addr, rtype), Hex2(count), Hex4(addr), Hex2(rtype);
    Hex2Reads(count);
    Hex4Reads(addr);
    Hex2Reads(rtype);
    assert h == ":" + c + a + t;
    ByteAtShift(h, 1, c, 0);
    ByteAtShift(h, 3, a, 0);
    ByteAtShift(h, 5, a, 2);
    ByteAtShift(h, 7, t, 0);
    forall k | 1 <= k < 9
      ensures IsHexDigit(h[k])
    {
      if k < 3 {
        assert h[k] == c[k - 1];
      } else if k < 7 {
        assert h[k] == a[k - 3];
      } else {
        assert h[k] == t[k - 7];
      }
    }
  }

  /** Reading a written record back: the line has 12 + 2*count characters,
      it starts with ':', every character after that up to the newline is a
      hex digit, and the fields at the columns the loader reads (header at
      1, 3 and 7, payload byte j at 9 + 2j, checksum after the payload) hold
      exactly what was written. */
  lemma EncodeFields(count: byte, addr: nat, rtype: byte, data: seq<byte>)
    requires addr < 0x10000 && |data| == count
    ensures var line := Encode(count, addr, rtype, data);
      && |line| == 12 + 2 * count
      && line[0] == ':' && line[11 + 2 * count] == '\n'
      && Readable(line, 1, 10 + 2 * count) && Upper(line, 1, 10 + 2 * count)
      && ByteAt(line, 1) == count && WordAt(line, 3) == addr && ByteAt(line, 7) == rtype
      && (forall j :: 0 <= j < count ==> ByteAt(line, 9 + 2 * j) == data[j])
      && ByteAt(line, 9 + 2 * count) == Checksum(count, addr, rtype, data)
  {
    var h, d := Header(count, addr, rtype), HexBytes(data);
    var cs := Hex2(Checksum(count, addr, rtype, data));
    HeaderFields(count, addr, rtype);
    HexBytesReads(data);
    Hex2Reads(Checksum(count, addr, rtype, data));
    PiecesRead(h, d, cs, count);
    PiecesUpper(count, addr, rtype, d, cs);
  }

  /** Every digit of a line made of write_record's header, a payload and a
      checksum, each written with `%02X`/`%04X`, is upper case. */
  lemma PiecesUpper(count: byte, addr: nat, rtype: byte, d: string, cs: string)
    requires addr < 0x10000 && |d| == 2 * count && |cs| == 2
    requires Upper(d, 0, 2 * count) && Upper(cs, 0, 2)
    ensures Upper(Header(count, addr, rtype) + d + cs + "\n", 1, 10 + 2 * count)
  {
    var h := Header(count, addr, rtype);
    var line := h + d + cs + "\n";
    assert h[1..3] == Hex2(count) && h[3..7] == Hex4(addr) && h[7..9] == Hex2(rtype);
    assert Hex4(addr) == Hex2(addr / 256) + Hex2(addr % 256);
    forall k | 1 <= k < 11 + 2 * count
      ensures IsUpperHexDigit(line[k])
    {
      if k < 9 {
        assert line[k] == h[k];
      } else if k < 9 + 2 * count {
        assert line[k] == d[k - 9];
      } else {
        assert line[k] == cs[k - 9 - 2 * count];
      }
    }
  }

  /** The fields of a line made of a header, a payload and a checksum. */
  lemma PiecesRead(h: string, d: string, cs: string, count: nat)
    requires |h| == 9 && |d| == 2 * count && |cs| == 2
    requires h[0] == ':' && Readable(h, 1, 8) && Readable(d, 0, 2 * count) && Readable(cs, 0, 2)
    ensures var line := h + d + cs + "\n";
      && line[0] == ':' && line[11 + 2 * count] == '\n'
      && Readable(line, 1, 10 + 2 * count)
      && ByteAt(line, 1) == ByteAt(h, 1) && ByteAt(line, 3) == ByteAt(h, 3)
      && ByteAt(line, 5) == ByteAt(h, 5) && ByteAt(line, 7) == ByteAt(h, 7)
      && (forall j :: 0 <= j < count ==> ByteAt(line, 9 + 2 * j) == ByteAt(d, 2 * j))
      && ByteAt(line, 9 + 2 * count) == ByteAt(cs, 0)
  {
    var line := h + d + cs + "\n";
    ByteAtShift(line, 1, h, 1);
    ByteAtShift(line, 3, h, 3);
    ByteAtShift(line, 5, h, 5);
    ByteAtShift(line, 7, h, 7);
    forall j | 0 <= j < count
      ensures ByteAt(line, 9 + 2 * j) == ByteAt(d, 2 * j)
    {
      ByteAtShift(line, 9 + 2 * j, d, 2 * j);
    }
    ByteAtShift(line, 9 + 2 * count, cs, 0);
    forall k | 1 <= k < 11 + 2 * count
      ensures IsHexDigit(line[k])
    {
      if k < 9 {
        assert line[k] == h[k];
      } else if k < 9 + 2 * count {
        assert line[k] == d[k - 9];
      } else {
        assert line[k] == cs[k - 9 - 2 * count];
      }
    }
  }

  /** The uint8 sum `count + addr + (addr >> 8) + type` of flhex.c:175 is the
      header's share of the checksum. */
  lemma HeaderSumMod(count: byte, addr: nat, rtype: byte)
    requires addr < 0x10000
    ensures (count + addr + addr / 256 + rtype) % 256 == HeaderSum(count, addr, rtype) % 256
  {
    assert addr == 256 * (addr / 256) + addr % 256;
  }

  /** Adding to a uint8 sum. */
  lemma AddMod(x: nat, y: nat)
    ensures (x % 256 + y) % 256 == (x + y) % 256
  {
    assert x == 256 * (x / 256) + x % 256;
  }

  /** The sum of a run extended by one byte. */
  lemma SumSnoc(p: seq<byte>, i: nat)
    requires i < |p|
    ensures Sum(p[..i + 1]) == Sum(p[..i]) + p[i]
  {
    assert p[..i + 1][..i] == p[..i];
  }

  /** One more byte into a uint8 running sum. */
  lemma SumStep(h: nat, p: seq<byte>, i: nat, c: byte)
    requires i < |p| && c == (h + Sum(p[..i])) % 256
    ensures (c + p[i]) % 256 == (h + Sum(p[..i + 1])) % 256
  {
    SumSnoc(p, i);
    AddMod(h + Sum(p[..i]), p[i]);
  }

  /** write_record (flhex.c:174-185): the checksum loop, the negation, then
      the header, the payload loop and the checksum, appended to the output
      line. */
  method WriteRecord(count: byte, addr: nat, rtype: byte, data: seq<byte>) returns (line: string)
    requires addr < 0x10000 && |data| == count
    ensures line == Encode(count, addr, rtype, data)
  {
    var checksum: byte := (count + addr + addr / 256 + rtype) % 256;
    HeaderSumMod(count, addr, rtype);
    for i := 0 to count
      invariant checksum == (HeaderSum(count, addr, rtype) + Sum(data[..i])) % 256
    {
      SumStep(HeaderSum(count, addr, rtype), data, i, checksum);
      checksum := (checksum + data[i]) % 256;
    }
    assert data[..count] == data;
    checksum := (256 - checksum) % 256;
    assert checksum == Checksum(count, addr, rtype, data);
    line := ":" + Hex2(count) + Hex4(addr) + Hex2(rtype);
    assert line == Header(count, addr, rtype);
    ghost var header := line;
    for i := 0 to count
      invariant line == header + HexBytes(data[..i])
    {
      assert data[..i + 1][..i] == data[..i];
      assert HexBytes(data[..i + 1]) == HexBytes(data[..i]) + Hex2(data[i]);
      line := line + Hex2(data[i]);
    }
    line := line + Hex2(checksum) + "\n";
  }

  /** The end-of-file record flhex.c:205 writes. */
  lemma EndOfFileLine()
    ensures Encode(0, 0, EndOfFileType, []) == ":00000001FF\n"
  {
    assert Checksum(0, 0, EndOfFileType, []) == 0xFF;
    assert Hex2(0) == "00" && Hex2(1) == "01" && Hex2(0xFF) == "FF";
    assert Header(0, 0, EndOfFileType) == ":00000001";
  }
}
