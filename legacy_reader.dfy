/** The older reader of BinaryTools/BinaryReader.cpp, a class of its own
    beside the header reader. Its offsets are signed `int`s, a negative
    fixed length reads nothing, and its "null-terminated" string reader
    stops in front of a line feed, which it does not consume. */
module LegacyReader {
  import opened Bytes
  import opened Alignment
  import opened Scanning

  /** The byte `'\n'` that ends a legacy string. */
  const LineFeed: byte := 0x0A

  class BinaryReader {
    /** The bytes of the opened file; reading never changes them. */
    const data: seq<byte>
    /** The stream cursor (`tellg`). */
    var pos: nat

    constructor (data: seq<byte>)
      ensures this.data == data && pos == 0
    {
      this.data := data;
      pos := 0;
    }

    /** The stream primitive `read(buffer, n)`. */
    method StreamRead(n: nat) returns (bytes: seq<byte>)
      requires pos + n <= |data|
      modifies this
      ensures bytes == data[old(pos) .. old(pos) + n]
      ensures pos == old(pos) + n
    {
      bytes := data[pos .. pos + n];
      pos := pos + n;
    }

    method ReadUint8() returns (v: byte)
      requires pos + 1 <= |data|
      modifies this
      ensures v == data[old(pos)] && pos == old(pos) + 1
    {
      var bytes := StreamRead(1);
      v := bytes[0];
    }

    method ReadUint16() returns (v: uint16)
      requires pos + 2 <= |data|
      modifies this
      ensures v == DecodeLE(data[old(pos) .. old(pos) + 2]) && pos == old(pos) + 2
    {
      WidthBounds();
      var bytes := StreamRead(2);
      v := DecodeLE(bytes);
    }

    method ReadUint32() returns (v: uint32)
      requires pos + 4 <= |data|
      modifies this
      ensures v == DecodeLE(data[old(pos) .. old(pos) + 4]) && pos == old(pos) + 4
    {
      WidthBounds();
      var bytes := StreamRead(4);
      v := DecodeLE(bytes);
    }

    method ReadUint64() returns (v: uint64)
      requires pos + 8 <= |data|
      modifies this
      ensures v == DecodeLE(data[old(pos) .. old(pos) + 8]) && pos == old(pos) + 8
    {
      WidthBounds();
      var bytes := StreamRead(8);
      v := DecodeLE(bytes);
    }

    method ReadInt8() returns (v: int8)
      requires pos + 1 <= |data|
      modifies this
      ensures v == ToSigned(data[old(pos)], 1) && pos == old(pos) + 1
    {
      WidthBounds();
      var bytes := StreamRead(1);
      v := ToSigned(bytes[0], 1);
    }

    method ReadInt16() returns (v: int16)
      requires pos + 2 <= |data|
      modifies this
      ensures v == ToSigned(DecodeLE(data[old(pos) .. old(pos) + 2]), 2) && pos == old(pos) + 2
    {
      WidthBounds();
      var bytes := StreamRead(2);
      v := ToSigned(DecodeLE(bytes), 2);
    }

    method ReadInt32() returns (v: int32)
      requires pos + 4 <= |data|
      modifies this
      ensures v == ToSigned(DecodeLE(data[old(pos) .. old(pos) + 4]), 4) && pos == old(pos) + 4
    {
      WidthBounds();
      var bytes := StreamRead(4);
      v := ToSigned(DecodeLE(bytes), 4);
    }

    method ReadInt64() returns (v: int64)
      requires pos + 8 <= |data|
      modifies this
      ensures v == ToSigned(DecodeLE(data[old(pos) .. old(pos) + 8]), 8) && pos == old(pos) + 8
    {
      WidthBounds();
      var bytes := StreamRead(8);
      v := ToSigned(DecodeLE(bytes), 8);
    }

    method ReadChar() returns (c: byte)
      requires pos + 1 <= |data|
      modifies this
      ensures c == data[old(pos)] && pos == old(pos) + 1
    {
      var bytes := StreamRead(1);
      c := bytes[0];
    }

    /** The bytes up to the first line feed at or after the cursor. The
        cursor is left ON the line feed, so a second call returns the empty
        string without moving. */
    method ReadNullTerminatedString() returns (s: seq<byte>)
      requires HasByteFrom(data, pos, LineFeed)
      modifies this
      ensures pos == IndexFrom(data, old(pos), LineFeed)
      ensures s == data[old(pos) .. pos]
      ensures LineFeed !in s
    {
      ghost var start := pos;
      ghost var stop := IndexFrom(data, pos, LineFeed);
      s := [];
      var c := NextChar();
      while c != LineFeed
        invariant start <= pos <= stop
        invariant s == data[start .. pos]
        invariant c == data[pos]
        decreases stop - pos
      {
        var charBuffer := StreamRead(1);
        s := s + charBuffer;
        c := NextChar();
      }
    }

    /** `length` bytes from the cursor; a length of zero or less reads nothing. */
    method ReadFixedLengthString(length: int) returns (s: seq<byte>)
      requires length <= 0 || pos + length <= |data|
      modifies this
      ensures pos == old(pos) + (if length > 0 then length else 0)
      ensures length <= 0 ==> s == []
      ensures length > 0 ==> s == data[old(pos) .. pos]
    {
      ghost var start := pos;
      s := [];
      var i := 0;
      while i < length
        invariant 0 <= i && (length > 0 ==> i <= length) && (length <= 0 ==> i == 0)
        invariant pos == start + i
        invariant length <= 0 ==> s == []
        invariant length > 0 ==> s == data[start .. pos]
      {
        var charBuffer := StreamRead(1);
        s := s + charBuffer;
        i := i + 1;
      }
    }

    /** The byte at the cursor, read and then stepped back over. */
    method NextChar() returns (c: byte)
      requires pos + 1 <= |data|
      modifies this
      ensures pos == old(pos) && c == data[pos]
    {
      c := ReadChar();
      SeekCur(-1);
    }

    method SeekBeg(absoluteOffset: int)
      requires absoluteOffset >= 0
      modifies this
      ensures pos == absoluteOffset
    {
      pos := absoluteOffset;
    }

    /** A relative seek; a negative offset moves back. A target before 0
        fails the C++ stream and is excluded. */
    method SeekCur(relativeOffset: int)
      requires pos + relativeOffset >= 0
      modifies this
      ensures pos == old(pos) + relativeOffset
    {
      pos := pos + relativeOffset;
    }

    method Skip(bytesToSkip: int)
      requires pos + bytesToSkip >= 0
      modifies this
      ensures pos == old(pos) + bytesToSkip
    {
      pos := pos + bytesToSkip;
    }

    /** The same remainder arithmetic as the header reader and the writer. */
    method Align(alignmentValue: int) returns (paddingSize: nat)
      requires alignmentValue >= 1
      modifies this
      ensures paddingSize == CalcAlign(old(pos), alignmentValue)
      ensures paddingSize < alignmentValue
      ensures pos == old(pos) + paddingSize && pos % alignmentValue == 0
    {
      var remainder: nat := pos % alignmentValue;
      paddingSize := if remainder > 0 then alignmentValue - remainder else 0;
      Skip(paddingSize);
    }
  }
}
