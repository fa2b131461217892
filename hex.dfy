/** Bytes and the two-digit and four-digit hexadecimal fields of an Intel HEX
    record: what `sscanf("%2X")`/`sscanf("%4X")` read (flhex.c:115, 132, 141,
    149, 162) and what `fprintf("%02X")`/`fprintf("%04X")` write
    (flhex.c:180-184). */
module Hex {

  /** A uint8_t. */
  type byte = x: int | 0 <= x < 256

  predicate IsHexDigit(c: char)
  {
    '0' <= c <= '9' || 'A' <= c <= 'F' || 'a' <= c <= 'f'
  }

  /** The value of one hex digit, either case. */
  function DigitValue(c: char): (v: nat)
    requires IsHexDigit(c)
    ensures v < 16
  {
    if c <= '9' then c as int - '0' as int
    else if c <= 'F' then c as int - 'A' as int + 10
    else c as int - 'a' as int + 10
  }

  /** The upper-case digit of `%X`. */
  function UpperDigit(d: nat): (c: char)
    requires d < 16
    ensures IsHexDigit(c) && DigitValue(c) == d
    ensures '0' <= c <= '9' || 'A' <= c <= 'F'
  {
    if d < 10 then ('0' as int + d) as char else ('A' as int + d - 10) as char
  }

  /** A digit `%X` writes: 0-9 or upper-case A-F. */
  predicate IsUpperHexDigit(c: char)
  {
    '0' <= c <= '9' || 'A' <= c <= 'F'
  }

  /** s[i..i+n] exists and is made of upper-case hex digits. */
  predicate Upper(s: string, i: nat, n: nat)
  {
    i + n <= |s| && forall k :: i <= k < i + n ==> IsUpperHexDigit(s[k])
  }

  /** s[i..i+n] exists and is made of hex digits. */
  predicate Readable(s: string, i: nat, n: nat)
  {
    i + n <= |s| && forall k :: i <= k < i + n ==> IsHexDigit(s[k])
  }

  /** The digit at s[k], or 0 where there is none. */
  function DigitAt(s: string, k: nat): (v: nat)
    ensures v < 16
  {
    if k < |s| && IsHexDigit(s[k]) then DigitValue(s[k]) else 0
  }

  /** The byte written in the two digits at s[i..i+2] (`%2X`). Where the
      digits are missing the result is 0; a load is only specified for lines
      whose fields are Readable. */
  function ByteAt(s: string, i: nat): byte
  {
    16 * DigitAt(s, i) + DigitAt(s, i + 1)
  }

  /** The 16-bit value written in the four digits at s[i..i+4] (`%4X`). */
  function WordAt(s: string, i: nat): (v: nat)
    ensures v < 0x10000
  {
    256 * ByteAt(s, i) + ByteAt(s, i + 2)
  }

  /** `%02X`: two upper-case digits, high nibble first. */
  function Hex2(b: byte): (s: string)
    ensures |s| == 2
  {
    [UpperDigit(b / 16), UpperDigit(b % 16)]
  }

  /** `%04X`: four upper-case digits, high byte first. */
  function Hex4(w: nat): (s: string)
    requires w < 0x10000
    ensures |s| == 4
  {
    Hex2(w / 256) + Hex2(w % 256)
  }

  /** The payload loop of write_record (flhex.c:181-183): `%02X` per byte. */
  function HexBytes(p: seq<byte>): (s: string)
    ensures |s| == 2 * |p|
  {
    if |p| == 0 then "" else HexBytes(p[..|p| - 1]) + Hex2(p[|p| - 1])
  }

  /** `%2X` reads back what `%02X` wrote, two upper-case digits. */
  lemma Hex2Reads(b: byte)
    ensures Readable(Hex2(b), 0, 2) && Upper(Hex2(b), 0, 2) && ByteAt(Hex2(b), 0) == b
  {
  }

  /** `%4X` reads back what `%04X` wrote. */
  lemma Hex4Reads(w: nat)
    requires w < 0x10000
    ensures Readable(Hex4(w), 0, 4) && WordAt(Hex4(w), 0) == w
  {
    var s := Hex4(w);
    Hex2Reads(w / 256);
    Hex2Reads(w % 256);
    ByteAtShift(s, 0, Hex2(w / 256), 0);
    ByteAtShift(s, 2, Hex2(w % 256), 0);
  }

  /** Byte j of a written payload is read back at column 2j, and every digit
      written is upper case. */
  lemma {:induction false} HexBytesReads(p: seq<byte>)
    ensures Readable(HexBytes(p), 0, 2 * |p|) && Upper(HexBytes(p), 0, 2 * |p|)
    ensures forall j :: 0 <= j < |p| ==> ByteAt(HexBytes(p), 2 * j) == p[j]
  {
    if |p| > 0 {
      var q, b := p[..|p| - 1], p[|p| - 1];
      var s, t, u := HexBytes(p), HexBytes(q), Hex2(b);
      HexBytesReads(q);
      Hex2Reads(b);
      assert s == t + u;
      forall j | 0 <= j < |q|
        ensures ByteAt(s, 2 * j) == p[j]
      {
        ByteAtShift(s, 2 * j, t, 2 * j);
      }
      ByteAtShift(s, 2 * |q|, u, 0);
      forall k | 0 <= k < 2 * |p|
        ensures IsHexDigit(s[k]) && IsUpperHexDigit(s[k])
      {
        if k >= 2 * |q| {
          assert s[k] == u[k - 2 * |q|];
        }
      }
    }
  }

  /** The byte at s[i..i+2] is the byte at t[j..j+2] when the digits agree. */
  lemma ByteAtShift(s: string, i: nat, t: string, j: nat)
    requires i + 2 <= |s| && j + 2 <= |t| && s[i] == t[j] && s[i + 1] == t[j + 1]
    ensures ByteAt(s, i) == ByteAt(t, j)
  {
  }
}
