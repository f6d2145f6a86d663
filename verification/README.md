# ByteRead in Dafny

A model of the two pieces of logic in `ByteRead_debug.cpp`, a small binary
inspection utility, with proofs of what they compute.

- `getNumeric` reads a 1- to 4-byte integer from a file, big- or
  little-endian, signed or unsigned, and returns it as an `unsigned long`.
  Big-endian reads forward from an absolute offset. Little-endian seeks
  `offset` bytes before end of file and fetches backwards. The bytes are
  assembled with the first one fetched as the most significant, and a signed
  read sign-extends the field with `~(mask - ret)`.
- `printLine` renders up to 16 bytes as one line: the hex groups, padding up
  to 16 groups, a tab, the ASCII column and a newline.
- `binaryDumpAsASCII` prints a whole file, 16 bytes per line.

The file is an immutable `seq<uint8>`, and `fread`/`fseek` become index
arithmetic on it. A one-byte `fread` at or past end of file yields nothing and
leaves both the buffer byte and the position as they were (`Bytes.ReadAt`,
`Bytes.AfterRead`). An `fseek` to a negative absolute position fails and
leaves the position where it was (`Bytes.Seek`). One iteration of the
little-endian loop (lines 78-80: seek back one, read a byte, seek back one)
takes the position from `pos` to `Numeric.LittleNext(file, pos)`. The position the file stands
at when `getNumeric` is called is the parameter `start`. It only matters when
the first seek fails. Where the call leaves the file is
`Numeric.ExitPosition`, and that is the `start` of the next call on the same
file. The returned `unsigned long` is a 64-bit word: a `nat`
below 2^64. `Numeric.ToSigned64` is its two's-complement reading, which is
what the program's `%ld` prints. The output of `printLine` is the string
`printf` writes. The constants `LITTLE`, `BIG`, `SIGNED`, `UNSIGNED` and
`LINESIZE` (ByteRead_debug.cpp lines 20-24) keep their values.

Modules:

- `Bytes`: bytes, `ReadAt`/`Seek`/`AfterRead`, powers of two, and the big-
  and little-endian readings of a byte sequence with their encoders and
  round-trip lemmas.
- `Numeric`: `getNumeric`, as loops over the file (`BigEndianLoop`,
  `LittleEndianLoop`, `AssembleFrom`, `SignExtend`). Each loop has a reference
  definition that does not follow it: `Available`, `LittleByte` and
  `FieldValue`.
- `Render`: `printLine`, with a parser for the hex column (`ParseLine`)
  as its inverse. `AsciiChar` is the display character of lines 51-55:
  the byte itself when it is printable (32 to 126), a space otherwise.
  `Padding(k)` is the `k` three-space groups of lines 42-46, and
  `AsciiColumn` is the display characters in order.
- `Dump`: `binaryDumpAsASCII` as a method with the source's loop. Its output
  is specified by `DumpText`, which in turn is proved equal to printing
  `Chunks(file)` one line per chunk.

Where the code and its comments disagree, the model follows the code:

- After the loop stops at end of file, the extra `fread` at line 128 fails as
  well, so `printLine(buffer, linePos)` always runs.
  - A file whose length is a multiple of 16 therefore ends with a line of
    padding only, and an empty file dumps as exactly that line
    (`Dump.EmptyFileDump`, `Dump.SixteenByteDump`).
  - The comment at line 127 presents that last print as being for a line
    shorter than LINESIZE. The code prints it in every case.

Reads outside the file:

- `getNumeric` never checks what `fread` or `fseek` return. A big-endian read
  that runs past end of file therefore leaves the zero-initialised bytes of
  line 71 in the buffer.
- A little-endian read outside the file follows the `fseek` and `fread`
  semantics above.
  - A read that steps back past the start of the file fetches the first byte
    again.
  - A read that starts beyond end of file fetches zeros, and each failed read
    moves the position back by two.

## Model

| member | source | states |
|---|---|---|
| Numeric.BigEndianLoop | ByteRead_debug.cpp:84-86 | after the forward read loop, slot i holds the byte `i` places after the start position when that lies inside the file, and keeps its old value otherwise |
| Numeric.BigEndianBuffer | ByteRead_debug.cpp:71-86 | the big-endian buffer is the bytes that exist from the position on, followed by zeros up to `size` |
| Numeric.LittleStep | ByteRead_debug.cpp:77-81 | one iteration of the backward loop fetches the first byte of the closed-form backward walk (or reads nothing where that byte is 0), and the walk from where it stops is the rest of the walk |
| Numeric.LittleEndianLoop | ByteRead_debug.cpp:74-81 | the backward fetch loop fills slot j with byte j of the closed-form backward walk `LittleByte`, for every start position, including positions before the start or beyond the end of the file |
| Numeric.Fetch | ByteRead_debug.cpp:71-87 | the buffer getNumeric fills has exactly `size` bytes whatever the endian value and offset (its contents are stated by `Numeric.FetchValue`, `Numeric.BigEndianBuffer` and `Numeric.LittleEndianLoop`) |
| Numeric.BigEndianExit | ByteRead_debug.cpp:83-86 | the forward read loop leaves the position right after the bytes of the field that exist, at most `n` further on |
| Numeric.LittleExitStep | ByteRead_debug.cpp:77-81 | one seek-read-seek iteration moves the position to where the closed-form backward walk continues |
| Numeric.LittleEndianExit | ByteRead_debug.cpp:74-81 | the backward fetch loop ends at the closed-form position `LittleEnd`: one byte back per iteration within the file, never before its start, two back per iteration while beyond end of file |
| Numeric.AssembleFrom | ByteRead_debug.cpp:89-93 | the shift-and-or loop, with `ret` still clear below the current shift, ends with the big-endian value of the buffer |
| Numeric.Assemble | ByteRead_debug.cpp:89-93 | the assembled value is the big-endian reading of the buffer, with buffer[0] most significant, and is below 2^(8*size) |
| Numeric.MaskIsAllOnes | ByteRead_debug.cpp:95-99 | 0xFFFFFFFF shifted right by 32 - 8*size is the all-ones field 2^(8*size) - 1 |
| Numeric.ExtendNegative | ByteRead_debug.cpp:98-102 | when the sign bit is set, `~(mask - ret)` on 64-bit words is 2^64 - 2^(8*size) + ret |
| Numeric.SignExtend | ByteRead_debug.cpp:95-103 | the result is a 64-bit word: unsigned it is the field itself; signed, its reading lies in [-2^(8size-1), 2^(8size-1)); either way it agrees with the field modulo 2^(8*size) |
| Numeric.FetchValue | ByteRead_debug.cpp:71-93 | the fetched buffer read most-significant-first is the reference value `FieldValue`, for every endian value, offset and prior position |
| Numeric.GetNumeric | ByteRead_debug.cpp:69-105 | the result is below 2^64 and agrees with the field value modulo 2^(8*size); unsigned it equals the field value, which is below 2^(8*size); signed it lies in [-2^(8size-1), 2^(8size-1)) |
| Numeric.ExitPosition | ByteRead_debug.cpp:74-87 | the position getNumeric leaves the file at: after the bytes read big-endian, at the end of the backward walk little-endian, unchanged for any other endian value |
| Numeric.SignExtendDetermined | ByteRead_debug.cpp:89-103 | two reads whose fields have the same value return the same word |
| Numeric.PriorPositionIrrelevant | ByteRead_debug.cpp:75-83 | when the first seek succeeds (big-endian offset at least 0, little-endian offset at most the file length), the position the file was at does not affect the result |
| Numeric.FailedSeek | ByteRead_debug.cpp:75-83 | a negative big-endian offset reads from the prior position; a little-endian offset beyond the file length reads as if the seek had landed on the prior position |
| Numeric.BigEndianInRange | ByteRead_debug.cpp:83-93 | an in-range big-endian unsigned read is the big-endian value of file[offset..offset+size], file[offset] weighing 256^(size-1) |
| Numeric.BigEndianZeroFill | ByteRead_debug.cpp:71-86 | big-endian, a position at or past end of file contributes 0 and one before it contributes the file's byte |
| Numeric.BigEndianPastEnd | ByteRead_debug.cpp:71-93 | a big-endian read starting at or past end of file returns 0, signed or unsigned |
| Numeric.LittleEndianRead | ByteRead_debug.cpp:74-93 | in range, little-endian buffer[i] is file[len-offset-1-i], and the unsigned value is the little-endian reading of the size bytes ending offset bytes before end of file |
| Numeric.LittleEndianPastStart | ByteRead_debug.cpp:75-81 | a little-endian read that walks past the start of the file fetches the first byte for every remaining slot |
| Numeric.LittleEndianPastEnd | ByteRead_debug.cpp:75-81 | a little-endian read with a negative offset fetches zeros for its first (1 - offset) / 2 slots |
| Numeric.LittleEndianSingleByte | ByteRead_debug.cpp:74-93 | a one-byte little-endian read at offset o equals the big-endian read at len-1-o |
| Numeric.SignedReading | ByteRead_debug.cpp:95-103 | a signed read prints as u - 2^(8*size) when the top bit of the field value u is set and as u otherwise; an unsigned read prints as u |
| Numeric.RoundTripBig | ByteRead_debug.cpp:83-103 | re-encoding the result modulo 2^(8*size) most significant byte first gives back the bytes read |
| Numeric.RoundTripLittle | ByteRead_debug.cpp:74-103 | re-encoding the result modulo 2^(8*size) least significant byte first gives back the size bytes ending offset bytes before end of file |
| Numeric.RoundTripFetched | ByteRead_debug.cpp:71-103 | for every read, re-encoding the result modulo 2^(8*size) gives back the buffer the code fetched, zero fill included |
| Numeric.ExitInRange | ByteRead_debug.cpp:74-87 | in range, big-endian leaves the file right after the field and little-endian right before it |
| Numeric.ChainedRead | ByteRead_debug.cpp:74-87 | a little-endian call whose seek fails, made right after an in-range big-endian call on the same file, reads the same bytes in the opposite byte order |
| Numeric.EncodedBigReadsBack | ByteRead_debug.cpp:83-93 | any value below 2^(8*size) written big-endian at an offset reads back as itself unsigned, and modulo 2^(8*size) signed |
| Numeric.EncodedLittleReadsBack | ByteRead_debug.cpp:74-93 | any value below 2^(8*size) written little-endian to end `offset` bytes before end of file reads back as itself unsigned, and modulo 2^(8*size) signed |
| Numeric.ExampleOne | ByteRead_debug.cpp:83-93 | 00 00 00 01 read as four bytes big-endian unsigned is 1 |
| Numeric.ExampleMinusOne | ByteRead_debug.cpp:95-103 | FF FF read as two bytes big-endian signed prints as -1 |
| Numeric.ExampleByte80 | ByteRead_debug.cpp:95-103 | the byte 80 reads as 128 unsigned and prints as -128 signed |
| Render.HexColumn | ByteRead_debug.cpp:37-39 | the hex column is three characters per byte |
| Render.HexColumnGroups | ByteRead_debug.cpp:37-39 | group i of the hex column is byte i's two upper-case hex digits and a space |
| Render.HexColumnPlain | ByteRead_debug.cpp:37-39 | the hex column contains no tab and no newline |
| Render.AsciiTailLayout | ByteRead_debug.cpp:47-57 | after the hex column come the tab, each byte's display character, and the newline |
| Render.AsciiTailSeparators | ByteRead_debug.cpp:50-56 | the ASCII column contains no tab and no newline |
| Render.PrintLine | ByteRead_debug.cpp:35-58 | a line is 3 characters per printed byte, 3 per padding group (16 - size of them when size < 16), plus the tab, the ASCII column and the newline, for any size including negative ones |
| Render.PrintLineLayout | ByteRead_debug.cpp:35-58 | a line of 0 to 16 bytes is 50 + size characters, with the tab at column 48, the ASCII column right after it and the newline last |
| Render.PrintLineGroups | ByteRead_debug.cpp:37-39 | characters 3i to 3i+2 of a line are byte i's hex group, for i < size |
| Render.PrintLinePadding | ByteRead_debug.cpp:42-46 | characters 3i to 3i+2 of a line are three spaces, for size <= i < 16 |
| Render.PrintLineSeparators | ByteRead_debug.cpp:35-58 | a line holds exactly one tab, right after the padded hex column, and exactly one newline, at its end |
| Render.HexDigitValue | ByteRead_debug.cpp:38 | each digit `%02X` writes reads back as its value |
| Render.ParseHexColumn | ByteRead_debug.cpp:37-39 | reading n hex groups back from a hex column of n bytes gives the bytes, whatever follows the column |
| Render.ParsePrintedLine | ByteRead_debug.cpp:35-58 | parsing a rendered line of 0 to 16 bytes gives back exactly the bytes printed |
| Dump.Chunks | ByteRead_debug.cpp:119-130 | the dump's cut of a file is len/16 full chunks of 16 and a final chunk of len % 16 bytes, present even when empty, and the chunks concatenated are the file |
| Dump.DumpTextChunks | ByteRead_debug.cpp:113-131 | the dump text is the chunks printed one line each |
| Dump.FullLine | ByteRead_debug.cpp:119-122 | printing a full buffer of the 16 bytes at the line start extends the text printed so far to the dump of the file up to the next line start |
| Dump.LastLine | ByteRead_debug.cpp:128-130 | printing the first linePos buffer bytes at end of file completes the dump, whatever the rest of the buffer holds |
| Dump.BinaryDumpAsAscii | ByteRead_debug.cpp:113-131 | the loop's output is the dump text of the file, whatever the buffer held before the loop |
| Dump.DumpLineCount | ByteRead_debug.cpp:113-131 | the dump holds len/16 + 1 newlines |
| Render.PrintLineNewlines | ByteRead_debug.cpp:35-58 | a rendered line holds exactly one newline |
| Dump.DumpLength | ByteRead_debug.cpp:113-131 | the dump is 66 characters per full chunk plus 50 + len % 16 for the final line |
| Dump.EmptyFileDump | ByteRead_debug.cpp:127-130 | an empty file dumps as 48 spaces, a tab and a newline |
| Dump.SixteenByteDump | ByteRead_debug.cpp:119-130 | a 16-byte file dumps as its full line followed by a line of padding only |
| Dump.ParseDumpLines | ByteRead_debug.cpp:113-131 | every line of the dump (the chunks printed one per line, by `Dump.DumpTextChunks`) reads back as its chunk, so reading the lines back and joining them gives the file (by `Dump.Chunks`) |

## Left out

- File handling (`fopen`, `fclose`, `FILE *`) and I/O errors other than end
  of file: the file is a byte sequence and every read inside it succeeds.
- `main` (lines 133-149): its fixed file names and demonstration calls are
  not part of this model. How its successive calls share one file is
  stated through `Numeric.ExitPosition` and `Numeric.ChainedRead`.
- `printf` itself: output is the string it would write. Text-mode newline
  translation of the `"r"` mode is platform-specific and is not modelled.
- Numeric.GetNumeric: requires 1 <= size <= 4. The source documents sizes 1,
  2 and 4. A size of 0 gives a zero-length array, and sizes above 4 make the
  mask shift at line 99 negative, which is undefined in C.
- The `char type` and `char endian` parameters are integers compared with
  the constants, as the code compares them. Any `endian` other than LITTLE or
  BIG leaves the zero-initialised buffer, and any `type` other than SIGNED is
  read as unsigned.
- `unsigned long` is 64 bits wide (LP64). A 32-bit `unsigned long` would
  change the sign-extended words, and is not modelled.
- The `|=` of the assembly loop is addition. The fields it combines never
  overlap, and `Numeric.AssembleFrom` carries that invariant.
- `binaryDumpAsASCII`'s buffer is uninitialised on entry. Its contents are a
  parameter, `stale`, and the output is proved not to depend on them.
- `Render.ParseLine` and `Render.ParseGroups` exist only to state that a
  rendered line can be read back; the source has no parser.
