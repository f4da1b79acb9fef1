# BinaryTools in Dafny

A model of the BinaryTools library's reader and writer classes. Both read or write
fixed-width integers, booleans, characters and strings at a stream cursor.

- **`Reader.BinaryReader`** is the header-only reader of
  `include/binary_tools/BinaryReader.h`. It works over an immutable byte
  sequence `data` (a file's contents or a memory buffer) and a cursor `pos`.
- **`Writer.BinaryWriter`** is the writer of
  `include/binary_tools/BinaryWriter.hpp`. Its sink is a byte sequence `content`
  with a cursor `pos`. The sink either grows (file constructor) or has a fixed
  size (memory-buffer constructor, `fixedSize`). A write at `pos` overwrites
  bytes and extends the sink when it runs past the end. `Skip` and `Align` fill
  any part of a skip that lies past the end with zero bytes.
- **`LegacyReader.BinaryReader`** is the older reader of
  `BinaryTools/BinaryReader.cpp`. Its offsets are signed. A fixed length of zero
  or less reads nothing. Its "null-terminated" string reader stops in front of a
  line feed (`'\n'`) and does not consume it.

Supporting modules:

- **`Bytes`**: the little-endian codec for 1-, 2-, 4- and 8-byte integers,
  two's-complement conversion, and the 2-byte units of wide strings.
- **`Alignment`**: `CalcAlign`, the padding arithmetic that every `Align` shares.
- **`Scanning`**: what the string readers compute, stated on the bytes alone.
  This covers the first terminator, the wide string, and the sized string list
  `ParseStringList`. `Pack` is the layout a producer writes for a string list.
- **`RoundTrip`**: client methods that write with a `Writer.BinaryWriter`, open
  a `Reader.BinaryReader` on the result and read the values back.

Integers are unbounded in the model. The C++ `uintN_t`/`intN_t` types are
subset types of their ranges. Native byte order is taken to be little-endian,
and `wchar_t` is taken to be 2 bytes, as the reader's 2-byte reads assume. A read
past the end of the data leaves the C++ stream failed with an unspecified
result. The model excludes such reads by preconditions.

## Model

| member | source | states |
|---|---|---|
| Reader.BinaryReader.constructor | include/binary_tools/BinaryReader.h:18-36 | a new reader is over the given bytes with the cursor at 0 |
| Reader.BinaryReader.ReadUint8 | include/binary_tools/BinaryReader.h:46-51 | returns the byte at the cursor and advances by 1 |
| Reader.BinaryReader.ReadUint16 | include/binary_tools/BinaryReader.h:53-58 | returns the little-endian value of the 2 bytes at the cursor and advances by 2 |
| Reader.BinaryReader.ReadUint32 | include/binary_tools/BinaryReader.h:60-66 | returns the little-endian value of the 4 bytes at the cursor and advances by 4 |
| Reader.BinaryReader.ReadUint64 | include/binary_tools/BinaryReader.h:68-73 | returns the little-endian value of the 8 bytes at the cursor and advances by 8 |
| Reader.BinaryReader.ReadInt8 | include/binary_tools/BinaryReader.h:77-82 | returns the byte at the cursor read as two's complement and advances by 1 |
| Reader.BinaryReader.ReadInt16 | include/binary_tools/BinaryReader.h:84-89 | returns the 2 bytes at the cursor read as a two's-complement value and advances by 2 |
| Reader.BinaryReader.ReadInt32 | include/binary_tools/BinaryReader.h:91-96 | returns the 4 bytes at the cursor read as a two's-complement value and advances by 4 |
| Reader.BinaryReader.ReadInt64 | include/binary_tools/BinaryReader.h:98-103 | returns the 8 bytes at the cursor read as a two's-complement value and advances by 8 |
| Reader.BinaryReader.ReadBoolean | include/binary_tools/BinaryReader.h:106-109 | true exactly when the byte at the cursor is non-zero; advances by 1 |
| Reader.BinaryReader.ReadByte | include/binary_tools/BinaryReader.h:112-115 | the byte at the cursor; advances by 1 |
| Reader.BinaryReader.ReadChar | include/binary_tools/BinaryReader.h:126-131 | the byte at the cursor; advances by 1 |
| Reader.BinaryReader.ReadCharWide | include/binary_tools/BinaryReader.h:133-138 | the 2-byte unit at the cursor; advances by 2 |
| Reader.BinaryReader.ReadNullTerminatedString | include/binary_tools/BinaryReader.h:140-151 | returns the bytes from the cursor up to the first NUL, and the result holds no NUL; the cursor ends one past that NUL |
| Reader.BinaryReader.ReadFixedLengthString | include/binary_tools/BinaryReader.h:153-164 | returns exactly `length` bytes from the cursor, NULs included; advances by `length` |
| Reader.BinaryReader.ReadNullTerminatedStringWide | include/binary_tools/BinaryReader.h:166-177 | returns the 2-byte units before the first zero unit (`WideString`), none of them zero; the cursor ends one unit past the zero unit |
| Reader.BinaryReader.ReadFixedLengthStringWide | include/binary_tools/BinaryReader.h:179-190 | returns exactly `length` 2-byte units from the cursor; advances by `2 * length` |
| Reader.BinaryReader.ReadSizedStringList | include/binary_tools/BinaryReader.h:192-214 | an empty list when the size is 0; otherwise the strings and end position of `ParseStringList` over the budget `[start, start + listSize)` |
| Reader.BinaryReader.SkipListPadding | include/binary_tools/BinaryReader.h:202-210 | the inner loop stops at the first non-NUL byte within the budget, or at the budget's end (`SkipPadding`) |
| Reader.BinaryReader.PeekChar | include/binary_tools/BinaryReader.h:218-223 | the byte at the cursor; the cursor does not move |
| Reader.BinaryReader.PeekCharWide | include/binary_tools/BinaryReader.h:225-230 | the 2-byte unit at the cursor; the cursor does not move |
| Reader.BinaryReader.PeekUint32 | include/binary_tools/BinaryReader.h:232-237 | the 4-byte value at the cursor; the cursor does not move |
| Reader.BinaryReader.SeekBeg | include/binary_tools/BinaryReader.h:264-267 | the cursor is at the absolute offset |
| Reader.BinaryReader.SeekCur | include/binary_tools/BinaryReader.h:269-272 | the cursor moves forward by the offset |
| Reader.BinaryReader.SeekReverse | include/binary_tools/BinaryReader.h:279-285 | the cursor moves back by the offset, but never before 0 |
| Reader.BinaryReader.Skip | include/binary_tools/BinaryReader.h:287-290 | the cursor moves forward by the count |
| Reader.BinaryReader.Align | include/binary_tools/BinaryReader.h:294-301 | returns `CalcAlign` of the old cursor; the new cursor is a multiple of the alignment |
| Reader.BinaryReader.Position | include/binary_tools/BinaryReader.h:305-308 | the cursor |
| Reader.BinaryReader.Length | include/binary_tools/BinaryReader.h:310-324 | the length of the data; the cursor is restored |
| Writer.Overwrite | include/binary_tools/BinaryWriter.hpp:57-60 | a write at `at` leaves the sink as long as before, or as long as `at` plus the bytes written, whichever is larger |
| Writer.OverwriteAt | include/binary_tools/BinaryWriter.hpp:57-60 | after a write, the written range holds the written bytes and every other byte keeps its value |
| Writer.OverwriteConcat | include/binary_tools/BinaryWriter.hpp:124-128 | two writes back to back equal one write of both, e.g. a string and then its terminator |
| Writer.OverwriteAtEnd | include/binary_tools/BinaryWriter.hpp:57-60 | a write at the end of the sink appends |
| Writer.OverwriteRead | include/binary_tools/BinaryWriter.hpp:57-60 | the written range reads back as the bytes written |
| Writer.OverwritePair | include/binary_tools/BinaryWriter.hpp:57-98 | after two consecutive writes, both ranges read back as written |
| Writer.BinaryWriter.File | include/binary_tools/BinaryWriter.hpp:16-35 | a file sink starts empty when truncating and holds the existing bytes otherwise; the cursor is at 0 and the sink can grow |
| Writer.BinaryWriter.Memory | include/binary_tools/BinaryWriter.hpp:37-42 | a memory sink holds the buffer, with the cursor at 0, and cannot grow |
| Writer.BinaryWriter.WriteUint8 | include/binary_tools/BinaryWriter.hpp:57-60 | the byte is written at the cursor; the cursor advances by 1 |
| Writer.BinaryWriter.WriteUint16 | include/binary_tools/BinaryWriter.hpp:62-65 | the 2 little-endian bytes of the value are written at the cursor; the cursor advances by 2 |
| Writer.BinaryWriter.WriteUint32 | include/binary_tools/BinaryWriter.hpp:67-70 | the 4 little-endian bytes of the value are written at the cursor; the cursor advances by 4 |
| Writer.BinaryWriter.WriteUint64 | include/binary_tools/BinaryWriter.hpp:72-75 | the 8 little-endian bytes of the value are written at the cursor; the cursor advances by 8 |
| Writer.BinaryWriter.WriteInt8 | include/binary_tools/BinaryWriter.hpp:79-82 | the two's-complement byte of the value is written at the cursor; the cursor advances by 1 |
| Writer.BinaryWriter.WriteInt16 | include/binary_tools/BinaryWriter.hpp:84-87 | the 2 two's-complement bytes of the value are written at the cursor; the cursor advances by 2 |
| Writer.BinaryWriter.WriteInt32 | include/binary_tools/BinaryWriter.hpp:89-92 | the 4 two's-complement bytes of the value are written at the cursor; the cursor advances by 4 |
| Writer.BinaryWriter.WriteInt64 | include/binary_tools/BinaryWriter.hpp:94-97 | the 8 two's-complement bytes of the value are written at the cursor; the cursor advances by 8 |
| Writer.BinaryWriter.WriteBoolean | include/binary_tools/BinaryWriter.hpp:100-103 | the byte 1 (true) or 0 (false) is written; the cursor advances by 1 |
| Writer.BinaryWriter.WriteByte | include/binary_tools/BinaryWriter.hpp:106-109 | the byte is written; the cursor advances by 1 |
| Writer.BinaryWriter.WriteBytes | include/binary_tools/BinaryWriter.hpp:111-114 | the bytes are written in order; the cursor advances by their count |
| Writer.BinaryWriter.WriteChar | include/binary_tools/BinaryWriter.hpp:118-121 | the character's byte is written; the cursor advances by 1 |
| Writer.BinaryWriter.WriteNullTerminatedString | include/binary_tools/BinaryWriter.hpp:123-128 | the string's bytes and then one NUL are written; the cursor advances by the length plus 1 |
| Writer.BinaryWriter.WriteFixedLengthString | include/binary_tools/BinaryWriter.hpp:130-134 | the string's bytes are written with no terminator |
| Writer.BinaryWriter.SeekBeg | include/binary_tools/BinaryWriter.hpp:171-174 | the cursor is at the offset; the content is unchanged |
| Writer.BinaryWriter.SeekCur | include/binary_tools/BinaryWriter.hpp:176-179 | the cursor moves forward by the offset; the content is unchanged |
| Writer.BinaryWriter.Skip | include/binary_tools/BinaryWriter.hpp:182-198 | the cursor moves forward by the count; a skip within the sink leaves it unchanged, and a skip past its end appends zero bytes up to the new cursor |
| Writer.BinaryWriter.WriteNullBytes | include/binary_tools/BinaryWriter.hpp:200-205 | the given number of zero bytes are written at the cursor |
| Writer.BinaryWriter.Align | include/binary_tools/BinaryWriter.hpp:216-222 | returns `CalcAlign` of the old cursor; the new cursor is aligned; padding past the end of the sink is zero bytes |
| Writer.BinaryWriter.Position | include/binary_tools/BinaryWriter.hpp:226-229 | the cursor |
| Writer.BinaryWriter.Length | include/binary_tools/BinaryWriter.hpp:231-245 | the length of the sink; the cursor and the content are unchanged |
| Alignment.CalcAlign | include/binary_tools/BinaryWriter.hpp:208-214 | the padding is less than the alignment, brings the position to a multiple of it, and is 0 exactly when the position is already aligned |
| Alignment.CalcAlignIsLeast | include/binary_tools/BinaryWriter.hpp:208-214 | no smaller padding aligns the position |
| Alignment.CalcAlignIdempotent | include/binary_tools/BinaryWriter.hpp:216-222 | aligning an aligned position adds no padding |
| Bytes.EncodeLE | include/binary_tools/BinaryWriter.hpp:62-75 | a value is encoded as exactly `width` bytes that decode back to the value |
| Bytes.DecodeLE | include/binary_tools/BinaryReader.h:53-73 | the decoded value of `n` bytes is below 256^n |
| Bytes.EncodeDecode | include/binary_tools/BinaryReader.h:53-73 | every byte sequence is the encoding of its decoded value, so decoding loses nothing |
| Bytes.ToSigned | include/binary_tools/BinaryReader.h:77-103 | the signed reading of an unsigned value is in the signed range, and is non-negative exactly when the unsigned value is below the sign bit |
| Bytes.FromSigned | include/binary_tools/BinaryWriter.hpp:79-97 | the unsigned bits of a signed value are in the unsigned range, and are below the sign bit exactly when the value is non-negative |
| Bytes.SignedRoundTrip | include/binary_tools/BinaryWriter.hpp:79-97 | converting a signed value to its bits and back gives the value |
| Bytes.UnsignedRoundTrip | include/binary_tools/BinaryReader.h:77-103 | converting bits to a signed value and back gives the bits |
| Bytes.WideUnits | include/binary_tools/BinaryReader.h:179-190 | an even-length byte sequence holds half as many 2-byte units |
| Bytes.WideUnitsAt | include/binary_tools/BinaryReader.h:179-190 | unit `i` is the value of bytes `2i` and `2i + 1` |
| Bytes.WideZero | include/binary_tools/BinaryReader.h:170 | a 2-byte unit is zero exactly when both of its bytes are |
| Bytes.WideUnitsAppend | include/binary_tools/BinaryReader.h:183-188 | decoding 2 more bytes appends one unit |
| Bytes.Zeros | include/binary_tools/BinaryWriter.hpp:200-205 | `n` bytes, all zero |
| Scanning.IndexFrom | include/binary_tools/BinaryReader.h:144 | the first index at or after `from` that holds the byte |
| Scanning.IndexFromUnique | include/binary_tools/BinaryReader.h:144 | an index holding the byte with none before it is the first index |
| Scanning.FirstZeroUnit | include/binary_tools/BinaryReader.h:170 | the first zero 2-byte unit from `from`, counted in units |
| Scanning.WideString | include/binary_tools/BinaryReader.h:166-177 | the wide string has one unit per unit before the first zero unit |
| Scanning.WideStringAt | include/binary_tools/BinaryReader.h:166-177 | unit `i` of the wide string is the `i`-th 2-byte unit from `from`, and it is non-zero |
| Scanning.WideStringNoZero | include/binary_tools/BinaryReader.h:166-177 | a wide string read never holds a zero unit |
| Scanning.SkipPadding | include/binary_tools/BinaryReader.h:202-210 | the padding scan passes only NUL bytes and stops on a non-NUL byte or at the budget's end |
| Scanning.SkipPaddingUnique | include/binary_tools/BinaryReader.h:202-210 | any position that satisfies those conditions is where the scan stops |
| Scanning.ParseStringList | include/binary_tools/BinaryReader.h:198-211 | a NUL-terminated string, then its NUL padding inside the budget, then the rest of the list while the budget lasts; returns at least one string and an end position at or past the budget |
| Scanning.ParseStringListShape | include/binary_tools/BinaryReader.h:192-214 | a non-empty budget gives at least one string. The read ends at or past the budget, exactly at it when the budget's last byte is a NUL. No string holds a NUL. The first string is empty exactly when the list starts with a NUL, and no later string is empty |
| Scanning.ParseCons | include/binary_tools/BinaryReader.h:198-211 | a list is its first string followed by the list read from where that string's padding ends |
| Scanning.ParseLast | include/binary_tools/BinaryReader.h:198-211 | a first string whose padding uses up the budget is the whole list |
| Scanning.Pack | include/binary_tools/BinaryWriter.hpp:123-128 | the packed layout is longer than its first string |
| Scanning.PackSnoc | include/binary_tools/BinaryWriter.hpp:216-222 | packing one more entry appends the string, its NUL and its padding |
| Scanning.ParsePack | include/binary_tools/BinaryReader.h:192-214 | reading packed entries of packable strings, with their extent as the budget, gives back the strings and uses up the extent |
| Scanning.ParsePacked | include/binary_tools/BinaryReader.h:192-214 | reading a whole packed layout as a sized string list gives back exactly the strings written |
| LegacyReader.BinaryReader.constructor | BinaryTools/BinaryReader.cpp:3-6 | a new reader is over the given bytes with the cursor at 0 |
| LegacyReader.BinaryReader.ReadUint8 | BinaryTools/BinaryReader.cpp:13-18 | the byte at the cursor; advances by 1 |
| LegacyReader.BinaryReader.ReadUint16 | BinaryTools/BinaryReader.cpp:20-25 | the little-endian 2-byte value at the cursor; advances by 2 |
| LegacyReader.BinaryReader.ReadUint32 | BinaryTools/BinaryReader.cpp:27-33 | the little-endian 4-byte value at the cursor; advances by 4 |
| LegacyReader.BinaryReader.ReadUint64 | BinaryTools/BinaryReader.cpp:35-40 | the little-endian 8-byte value at the cursor; advances by 8 |
| LegacyReader.BinaryReader.ReadInt8 | BinaryTools/BinaryReader.cpp:42-47 | the two's-complement byte at the cursor; advances by 1 |
| LegacyReader.BinaryReader.ReadInt16 | BinaryTools/BinaryReader.cpp:49-54 | the two's-complement 2-byte value at the cursor; advances by 2 |
| LegacyReader.BinaryReader.ReadInt32 | BinaryTools/BinaryReader.cpp:56-61 | the two's-complement 4-byte value at the cursor; advances by 4 |
| LegacyReader.BinaryReader.ReadInt64 | BinaryTools/BinaryReader.cpp:63-68 | the two's-complement 8-byte value at the cursor; advances by 8 |
| LegacyReader.BinaryReader.ReadChar | BinaryTools/BinaryReader.cpp:70-75 | the byte at the cursor; advances by 1 |
| LegacyReader.BinaryReader.ReadNullTerminatedString | BinaryTools/BinaryReader.cpp:77-87 | returns the bytes before the first line feed, with no line feed among them; the cursor stops ON the line feed |
| LegacyReader.BinaryReader.ReadFixedLengthString | BinaryTools/BinaryReader.cpp:89-99 | returns `length` bytes when `length` is positive, and nothing otherwise |
| LegacyReader.BinaryReader.NextChar | BinaryTools/BinaryReader.cpp:101-106 | the byte at the cursor; the cursor does not move |
| LegacyReader.BinaryReader.SeekBeg | BinaryTools/BinaryReader.cpp:127-130 | the cursor is at the offset |
| LegacyReader.BinaryReader.SeekCur | BinaryTools/BinaryReader.cpp:132-135 | the cursor moves by the signed offset |
| LegacyReader.BinaryReader.Skip | BinaryTools/BinaryReader.cpp:137-140 | the cursor moves by the signed count |
| LegacyReader.BinaryReader.Align | BinaryTools/BinaryReader.cpp:142-149 | returns `CalcAlign` of the old cursor, less than the alignment; the new cursor is aligned |
| RoundTrip.RoundTrip8 | include/binary_tools/BinaryWriter.hpp:57-82 | a `uint8_t` and an `int8_t` written into a memory buffer read back unchanged with `ReadUint8`/`ReadInt8` |
| RoundTrip.RoundTrip16 | include/binary_tools/BinaryWriter.hpp:62-87 | a `uint16_t` and an `int16_t` written into a file at any offset read back unchanged |
| RoundTrip.RoundTrip32 | include/binary_tools/BinaryWriter.hpp:67-92 | a `uint32_t` and an `int32_t` written into a file at any offset read back unchanged |
| RoundTrip.RoundTrip64 | include/binary_tools/BinaryWriter.hpp:72-97 | a `uint64_t` and an `int64_t` written into a file at any offset read back unchanged |
| RoundTrip.RoundTripBoolean | include/binary_tools/BinaryWriter.hpp:100-103 | a boolean written and read back is the same boolean |
| RoundTrip.RoundTripString | include/binary_tools/BinaryWriter.hpp:123-128 | a NUL-free string written with its terminator reads back unchanged, and the reader stops just past the terminator |
| RoundTrip.TerminatorAt | include/binary_tools/BinaryReader.h:140-151 | a string's own terminator is the first NUL the reader meets |
| RoundTrip.RoundTripFixedLengthString | include/binary_tools/BinaryWriter.hpp:130-134 | any bytes, NULs included, written without a terminator read back exactly |
| RoundTrip.RoundTripSkip | include/binary_tools/BinaryWriter.hpp:182-198 | a skip past the end of a fresh file leaves zero bytes between the values on either side, and both values read back |
| RoundTrip.WriteEntry | include/binary_tools/BinaryWriter.hpp:216-222 | one list entry appended at the end of a file is the string, its NUL and `CalcAlign` padding, so the entry ends on an alignment boundary |
| RoundTrip.WriteStringList | include/binary_tools/BinaryWriter.hpp:123-128 | a producer's string list appends exactly the `Pack` layout of its strings, with every padding smaller than the alignment |
| RoundTrip.RoundTripStringList | include/binary_tools/BinaryReader.h:192-214 | strings written with their padding and read back as a sized list of the written size come back unchanged, and the read ends where the writing ended; an empty list writes nothing and reads back empty through the size-0 branch |
| RoundTrip.ReadStringList | include/binary_tools/BinaryReader.h:192-214 | a reader over a whole buffer reads the list `ParseStringList` describes |
| RoundTrip.LegacyStringTwice | BinaryTools/BinaryReader.cpp:77-87 | the legacy reader returns the text up to the line feed and then, on a second call, the empty string, because the line feed is never consumed |

## Left out

- File system access, `Flush`, the destructors and the memory-stream buffer classes are not modelled; a sink is a byte sequence.
- Binary.h, Binary.hpp and BinaryTools/BinaryTools.cpp are not part of this model.
- `ReadFloat`, `ReadDouble`, `WriteFloat` and `WriteDouble` are not modelled, because floating point is out of scope.
- `ReadToMemory`, `WriteFromMemory`, `Write<T>` and `WriteSpan` copy raw memory of arbitrary C++ objects and are not modelled.
- `ReadBytes` is not modelled: it reads into the address of the vector object itself rather than into the vector's elements, so its effect is undefined memory corruption.
- `SeekEnd` of the header reader is not modelled: its `size_t` offset can only move the cursor to the end or beyond it, and a position past the end of an input stream is platform-defined.
- Reads past the end of the data, which leave the C++ stream failed with unspecified results, are excluded by preconditions instead of modelled.
- Reader.BinaryReader.ReadNullTerminatedString, ReadNullTerminatedStringWide and ReadSizedStringList require a terminator within the data; without one the C++ loop reads past the end.
- LegacyReader.BinaryReader.ReadNullTerminatedString requires a line feed at or after the cursor; without one the C++ loop reads from a failed stream and its result is undefined.
- LegacyReader.BinaryReader.SeekCur, Skip and SeekBeg require a target of at least 0; a negative target fails the C++ stream.
- Writer.BinaryWriter writes require the cursor to lie within the sink (`pos <= |content|`); a write after seeking past the end of a file, which leaves a hole, is not modelled.
- Writer.BinaryWriter writes on a memory sink require the write to fit; a full fixed-size buffer fails the C++ stream instead.
- `size_t` and `int` wrap-around is not modelled: positions, offsets and lengths are unbounded. The exception is `Writer.BinaryWriter.Skip`, whose wrapping subtraction when the cursor lies past the end is reproduced with signed arithmetic.
- Alignment.CalcAlign, Reader.BinaryReader.Align, Writer.BinaryWriter.Align and LegacyReader.BinaryReader.Align require an alignment of at least 1. An alignment of 0 is a remainder by zero in the C++ code, which is undefined behaviour. A negative alignment, which only the legacy `Align(int)` accepts, makes the `size_t` padding wrap, so the signed `Skip` seeks backwards; that path is not modelled.
- Native byte order is taken to be little-endian, and `wchar_t` is taken to be 2 bytes, matching the reader's 2-byte reads.
- `char` is treated as an unsigned byte; the signedness of `char` only changes how a returned character would be printed or compared outside this library.
