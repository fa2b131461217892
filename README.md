# flhex in Dafny

A model of flhex's core. flhex is a small C tool that reads Intel HEX files into a
growable byte buffer and writes the buffer back out as Intel HEX.

**The buffer.** `struct hexdata` holds a block of `capacity` bytes filled with an
`empty` padding byte. `size` is one past the highest offset written, and `width`
is the byte count of each data record when dumping.

- `hexdata_new` makes a 64 KiB buffer.
- `hexdata_resize` grows the block to the least power of two that is at least the
  requested size.
- `hexdata_write` stores a byte, growing the buffer when needed.

**The codec.**

- `hexdata_load` reads record lines. It tracks `base_addr` (set by extended
  segment and extended linear address records) and the line number. It widens
  `width` to the largest record count it sees, writes data bytes and tests the
  checksum of data, address and start segment address records. It returns at
  once, before any checksum, at an end-of-file record (returning 0), at an
  unsupported record type or at a malformed header (returning 1).
- `write_record` formats one record together with its uint8 checksum.
- `hexdata_dump` re-encodes `data[0..size)` as data records of `width` bytes.
  A data record that starts exactly at a multiple of 0x10000 is preceded by an
  address record; a record that straddles such a boundary gets none. The output
  ends with the end-of-file record.

**Modules:**

- `PowerOfTwo`: least power of two, and the uint32 bit smearing of `hexdata_resize`
  over `bv32`.
- `Hex`: bytes, `%2X`/`%4X` reading and `%02X`/`%04X` writing.
- `Memory`: the value of the struct (`Mem`) and what new, resize and write do to it.
- `Buffer`: the class `HexData`, with the block as an `array`. Its constructor and
  its `Resize` and `Write` methods update the fields in place and are proved to
  follow `Memory`.
- `Records`: the checksum and `write_record`.
- `Load`:
  - `Step` says what one line does to the loader state (buffer, `base_addr`,
    `line`) and `Run` says what a whole input does;
  - the method `Load` is the line loop over a `HexData`, proved to follow `Run`.
- `LoadFacts`: what a load does (data writes, checksums, address records, width,
  outcome).
- `Dump`:
  - `DumpFrom` gives the records the dump writes and `Render` gives their lines;
  - the method `Dump` is the dump loop over a `HexData`, proved to write
    `Render(DumpFrom(...))`.
- `DumpFacts`: what a dump writes, and how the loader reads its record lines back.
- `RoundTrip`: dumping and then loading into a fresh buffer gives back `size` and
  `data[0..size)`.

The model keeps the code's own behaviour where it departs from Intel HEX:

- The extended linear address record ORs `V << 16` into the old high half of
  `base_addr` instead of replacing it.
- The start segment address record has its checksum read at column 9, where its
  payload starts.
- The end-of-file record returns success without reading its checksum.
- Data bytes are written before the checksum of their line is tested.
- The width starts at 16 and only grows.
- The dump writes an address record only at exact multiples of 0x10000.

## Model

| member | source | states |
|---|---|---|
| PowerOfTwo.RoundUpPow2 | flhex.c:76-83 | For a uint32 with 1 ≤ desired ≤ 2^31, the round-up returns the least power of two that is at least desired: a power of two is kept; anything else is smeared and incremented. |
| PowerOfTwo.LeastPow2Bounds | flhex.c:76-83 | LeastPow2(n) is at least n, and the power of two below it is smaller than n. |
| PowerOfTwo.LeastPow2IsLeast | flhex.c:76-83 | No power of two at least n is below LeastPow2(n). |
| PowerOfTwo.LeastPow2IsPow2 | flhex.c:76-83 | The round-up is a power of two. |
| PowerOfTwo.PowersOfTwo | flhex.c:76-83 | A number is a power of two in the sense the round-up lemmas use exactly when it equals 2^k for some k. |
| PowerOfTwo.LeastPow2Monotone | flhex.c:73-88 | A larger request never yields a smaller capacity. |
| PowerOfTwo.Pow2AboveIsAboveLeast | flhex.c:73-88 | Every power of two that is at least the request is at least the chosen capacity. |
| Memory.NewMem | flhex.c:62-71 | A new buffer has capacity 65536, size 0 and width 16, and every byte holds the padding byte. |
| Buffer.HexData.constructor | flhex.c:62-71 | The constructor's memset loop fills the fresh block so that the object's value is NewMem(empty). |
| Memory.ResizeFacts | flhex.c:73-88 | Resize does nothing when desired ≤ capacity. Otherwise the capacity becomes LeastPow2(desired), the old bytes are kept, the new ones hold the padding byte, and size, padding and width are unchanged. |
| Memory.ResizeKeepsGood | flhex.c:73-88 | Resizing to at most 2^31 keeps the invariant: the capacity is a power of two in [64 KiB, 2 GiB], size ≤ capacity, and everything past size is padding. |
| Buffer.HexData.Resize | flhex.c:73-88 | The method's reallocation and padding change the object exactly as ResizeMem says, and Valid is kept. |
| Buffer.Realloc | flhex.c:84-85 | The new block is the old contents followed by padding up to the new length. |
| Memory.WriteFacts | flhex.c:90-98 | Write stores val at addr, grows the capacity to hold addr, and sets size to max(size, addr + 1). Padding and width are unchanged. |
| Memory.WriteFrame | flhex.c:90-98 | Write changes no old position other than addr, and every other position it adds holds the padding byte. The capacity grows only when addr is past it, and then to LeastPow2(addr + 1). |
| Memory.WriteKeepsGood | flhex.c:90-98 | A write below 2^31 keeps the invariant. |
| Buffer.HexData.Write | flhex.c:90-98 | The method changes the object exactly as WriteMem says, and Valid is kept. |
| Memory.NeverWrittenStaysEmpty | flhex.c:62-98 | After any sequence of writes, a position that none of them targets still holds what it held, or the padding byte if it was allocated on the way. In a new buffer, that position holds the padding byte. |
| Hex.Hex2Reads | flhex.c:180 | `%2X` reads back the byte that `%02X` wrote, and both digits are upper case. |
| Hex.Hex4Reads | flhex.c:180 | `%4X` reads back the 16-bit address that `%04X` wrote. |
| Hex.HexBytesReads | flhex.c:181-183 | Byte j of a written payload is read back at column 2j, and all the payload's digits are upper-case hex digits. |
| Records.ChecksumLaw | flhex.c:175-179 | Count, the two address bytes, type, payload and checksum sum to 0 mod 256, and the checksum is the only byte that does this. |
| Records.WriteRecord | flhex.c:174-185 | The line the method's checksum loop and formatting produce is Encode of the record. |
| Records.EncodeFields | flhex.c:174-185 | The encoded line is `:`, then 8 + 2·count + 2 upper-case hex digits, then a newline. Read back, it gives the count, address, type, each payload byte and the checksum. |
| Records.EndOfFileLine | flhex.c:205 | The end-of-file record is written as `:00000001FF` and a newline. |
| Load.BitOrBelow | flhex.c:151-152 | OR of two values below 2^k stays below 2^k. |
| Load.Load | flhex.c:107-172 | Loading lines into a HexData object leaves exactly the buffer that Run gives and returns the outcome Run gives, starting from base 0 and line 1. |
| Load.LoadLine | flhex.c:113-168 | One pass of the loop body agrees with Step: it either stops with Step's outcome, or goes on with Step's buffer, base and the next line number. |
| Load.LoadRecord | flhex.c:127-159 | For the types that reach the checksum test, the switch leaves the buffer and base of Step's checksum test, at the right column and with the right running sum. |
| Load.TestChecksum | flhex.c:161-166 | The checksum test fails with the expected and found bytes exactly when Check halts; otherwise the line counter advances. |
| Load.LoadData | flhex.c:128-136 | The payload loop writes the payload from address a on, as WriteData says, and returns the uint8 running sum DataSum. |
| LoadFacts.WriteDataFacts | flhex.c:131-136 | Payload byte j, read at column 9 + 2j, ends up at address a + j. Every other old position is unchanged, and the capacity only grows. |
| LoadFacts.WriteDataSize | flhex.c:131-136 | After the payload loop, size is max(size, a + count), or unchanged when the count is 0. |
| LoadFacts.WriteDataKeeps | flhex.c:131-136 | Writing a payload changes neither width nor padding. |
| LoadFacts.DataPersists | flhex.c:128-166 | A data record with a failing checksum halts the load with BadChecksum, and its payload bytes are already in the buffer. |
| LoadFacts.DataSumIsSum | flhex.c:134 | The uint8 running sum of the payload loop is the payload's byte sum mod 256. |
| LoadFacts.SumAgrees | flhex.c:120 | The loader's uint8 header sum plus the payload is brought to 0 by the found byte exactly when that byte is write_record's checksum. |
| LoadFacts.DataChecksum | flhex.c:128-166 | A data record goes on exactly when its byte after the payload is write_record's checksum of its header and payload. |
| LoadFacts.AddressChecksum | flhex.c:140-166 | Extended segment and linear address records go on exactly when the byte at column 13 is the checksum over the header and V's two bytes. |
| LoadFacts.StartSegmentChecksum | flhex.c:146-166 | A start segment address record goes on exactly when the byte at column 9 is the checksum of the header alone. When it goes on, it changes only the width and the line number. |
| LoadFacts.StandardStartSegmentRejected | flhex.c:146-166 | A well-formed standard start segment address record (`:0400000300003800C1`) fails with BadChecksum, expecting 0xF9 and finding 0. |
| LoadFacts.LinearBaseFresh | flhex.c:151-152 | From a base below 0x10000, the linear address record sets the base to V·0x10000. |
| LoadFacts.LinearBaseFits | flhex.c:151-152 | The linear update keeps the base a uint32 multiple of 0x10000, whose high half is the bitwise OR of the old high half and V. |
| LoadFacts.LinearMerge | flhex.c:151-152 | V = 2 after V = 1 gives base 0x30000, not 0x20000. |
| LoadFacts.StepBaseFits | flhex.c:140-154 | Every line keeps base_addr a uint32. |
| LoadFacts.StepWidth | flhex.c:122-124 | Every parsed header widens the width to its count when that count is larger, whatever the record type. A malformed header leaves the width alone. |
| LoadFacts.RunWidth | flhex.c:119-124 | After a load, the width is the running maximum over the old width and the count of every parsed header, up to and including the line the load stops at. |
| LoadFacts.WidthAfterGrows | flhex.c:122-124 | The width never falls below its starting value. |
| LoadFacts.StepOutcome | flhex.c:115-166 | A line halts the load with MalformedHeader exactly when its header does not parse. It halts with EndRecord exactly for type 1 (checksum unread), with Unsupported exactly for types above 4, and with BadChecksum exactly for the other types when the test fails. A line that goes on advances the line counter. |
| LoadFacts.RunStatus | flhex.c:107-172 | A load returns 1 exactly when some line it reaches, all earlier lines having gone on, has a malformed header, an unsupported type, or a failing checksum. Otherwise it returns 0, at the first end-of-file record or at the end of the input. |
| LoadFacts.RunIgnoresRest | flhex.c:112-171 | Once a load returns before the end of its input, the lines after that are never read. |
| LoadFacts.RunConcat | flhex.c:112-169 | A load that reads all of one input carries on into the next from the state it reached. |
| Dump.Dump | flhex.c:187-207 | Dumping a HexData object, which the method only reads, writes exactly Render(DumpFrom(buffer, 0)). |
| Dump.EmitBank | flhex.c:190-196 | The address record written before the data record at addr is the one Bank(addr) describes. |
| Dump.EmitData | flhex.c:197-202 | The data record at addr has width bytes, cut short at size. |
| DumpFacts.DumpCovers | flhex.c:189-204 | The data records from addr on carry data[addr..size) in order, with no gaps or overlaps. |
| DumpFacts.DumpCarriesData | flhex.c:187-207 | The payloads of the data records, concatenated, are data[0..size). |
| DumpFacts.DumpRecordAt | flhex.c:197-203 | Data record i starts at i·width < size. Its count is min(width, size − addr), its address field is addr mod 0x10000, its type is 0 and its payload is data[addr..addr + count). |
| DumpFacts.DumpEndsWithEof | flhex.c:205 | The last record written is the end-of-file record. |
| DumpFacts.DumpLastLine | flhex.c:205 | The last line written is `:00000001FF` and a newline. |
| DumpFacts.LineReads | flhex.c:174-185 | Every line write_record writes parses back as its record: header, payload, checksum and all of their digits. |
| DumpFacts.BankLoads | flhex.c:190-196 | Each address record the dump writes loads cleanly. Below 0x100000 it sets base_addr to the address; above, it merges addr >> 16 into the high half, which yields the address when the old base is below 0x10000. |
| DumpFacts.LinearBankAfterSegment | flhex.c:193-195 | After the segment record for 0xF0000, the linear record for 0x100000 gives base 0x1F0000 instead of 0x100000. |
| RoundTrip.RoundTrip | flhex.c:107-207 | For size ≤ 0x100000, a width that divides 65536 and lines under 256 characters, this holds: loading the dump into a fresh buffer reads every line safely, ends at the end-of-file record, and reproduces size and data[0..size). |

## Left out

- `main` and the usage, help and version text (flhex.c:209-309) are left out: this is argument parsing and file handling around the core.
- `xmalloc`, `xcalloc`, `xrealloc` and `hexdata_free` (flhex.c:35-60, 100-105) are left out; allocation is assumed to succeed, and reallocation is `Buffer.Realloc`, which copies the old block.
- Reading lines with `fgets` into the 256-byte buffer: the input is a sequence of whole lines, each including its trailing newline as `fgets` returns it. `Load.Safe` requires every line reached to be shorter than 256 characters, so no line is split and the uint8 column counter cannot wrap.
- `Load.Load`: requires that every line it reaches has all the digits its record type reads. This rules out the unchecked `sscanf` calls of flhex.c:132, 141, 149 and 162, which would leave `val` holding a stale value.
- `Load.HeaderOk`: a header parses only as `:` followed by eight hex digits. `sscanf`'s leniency (leading blanks, signs, fewer digits per field) is not modelled.
- `partition_size` (flhex.c:113, 130) is never initialised and never read, so it is not modelled.
- The messages printed on failure are not modelled. The outcome keeps the line number, the record type, and the expected and found checksum bytes.
- The uint32 line counter is a `nat`; wrap-around after 2^32 lines is not modelled.
- `Buffer.HexData.Write`: requires addr < 2^31. At higher addresses, rounding addr + 1 up in uint32 wraps to 0 and the source writes outside its block.
- `Buffer.HexData.Resize`: requires desired ≤ 2^31 for the same reason. The method computes the new capacity with the integer function `LeastPow2` and does not call the bit smearing itself. The straight-line uint32 smearing of flhex.c:76-83 (five shift-and-OR steps, then an increment) is the separate bv32 method `PowerOfTwo.RoundUpPow2`, which is proved to return `LeastPow2(desired)`.
- The header test `count <= 256` of flhex.c:122 always holds for a two-digit count, so only `count > width` is modelled.
- `Dump.Dump`: requires width ≥ 1. With width 0 and a non-empty buffer the source's loop never ends; with size 0 it writes only the end-of-file record.
- The dump's uint32 address cannot wrap while size ≤ 2^31, so its arithmetic is unbounded here.
- Dumping twice gives the same lines: `Dump.Dump` has no `modifies` clause, so it cannot change the buffer.
- `RoundTrip.RoundTrip`: proved only for size ≤ 0x100000, a width that divides 65536, and a width whose lines stay under 256 characters. Past 0x100000 the OR merge breaks the argument: `DumpFacts.LinearBankAfterSegment` shows that the linear record for 0x100000, read after the segment record for 0xF0000, sets the base to 0x1F0000 instead of 0x100000.
