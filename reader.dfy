/** The reader of include/binary_tools/BinaryReader.h: typed decoding from an
    immutable byte sequence (a file's contents or a fixed-size memory buffer)
    at a cursor. A read that would run past the end of the data leaves the
    C++ stream in a failed state; here it is excluded by a precondition. */
module Reader {
  import opened Bytes
  import opened Alignment
  import opened Scanning

  class BinaryReader {
    /** The bytes behind the stream; reading never changes them. */
    const data: seq<byte>
    /** The stream cursor (`tellg`). Seeking may place it past the end. */
    var pos: nat

    /** Both constructors: over a file's contents or over a memory buffer. */
    constructor (data: seq<byte>)
      ensures this.data == data && pos == 0
    {
      this.data := data;
      pos := 0;
    }

    /** The stream primitive `read(buffer, n)` every read goes through. */
    method StreamRead(n: nat) returns (bytes: seq<byte>)
      requires pos + n <= |data|
      modifies this
      ensures bytes == data[old(pos) .. old(pos) + n]
      ensures pos == old(pos) + n
    {
      bytes := data[pos .. pos + n];
      pos := pos + n;
    }

    method ReadUint8() returns (v: byte)
      requires pos + 1 <= |data|
      modifies this
      ensures v == data[old(pos)] && pos == old(pos) + 1
    {
      var bytes := StreamRead(1);
      v := bytes[0];
    }

    method ReadUint16() returns (v: uint16)
      requires pos + 2 <= |data|
      modifies this
      ensures v == DecodeLE(data[old(pos) .. old(pos) + 2]) && pos == old(pos) + 2
    {
      WidthBounds();
      var bytes := StreamRead(2);
      v := DecodeLE(bytes);
    }

    method ReadUint32() returns (v: uint32)
      requires pos + 4 <= |data|
      modifies this
      ensures v == DecodeLE(data[old(pos) .. old(pos) + 4]) && pos == old(pos) + 4
    {
      WidthBounds();
      var bytes := StreamRead(4);
      v := DecodeLE(bytes);
    }

    method ReadUint64() returns (v: uint64)
      requires pos + 8 <= |data|
      modifies this
      ensures v == DecodeLE(data[old(pos) .. old(pos) + 8]) && pos == old(pos) + 8
    {
      WidthBounds();
      var bytes := StreamRead(8);
      v := DecodeLE(bytes);
    }

    method ReadInt8() returns (v: int8)
      requires pos + 1 <= |data|
      modifies this
      ensures v == ToSigned(data[old(pos)], 1) && pos == old(pos) + 1
    {
      WidthBounds();
      var bytes := StreamRead(1);
      v := ToSigned(bytes[0], 1);
    }

    method ReadInt16() returns (v: int16)
      requires pos + 2 <= |data|
      modifies this
      ensures v == ToSigned(DecodeLE(data[old(pos) .. old(pos) + 2]), 2) && pos == old(pos) + 2
    {
      WidthBounds();
      var bytes := StreamRead(2);
      v := ToSigned(DecodeLE(bytes), 2);
    }

    method ReadInt32() returns (v: int32)
      requires pos + 4 <= |data|
      modifies this
      ensures v == ToSigned(DecodeLE(data[old(pos) .. old(pos) + 4]), 4) && pos == old(pos) + 4
    {
      WidthBounds();
      var bytes := StreamRead(4);
      v := ToSigned(DecodeLE(bytes), 4);
    }

    method ReadInt64() returns (v: int64)
      requires pos + 8 <= |data|
      modifies this
      ensures v == ToSigned(DecodeLE(data[old(pos) .. old(pos) + 8]), 8) && pos == old(pos) + 8
    {
      WidthBounds();
      var bytes := StreamRead(8);
      v := ToSigned(DecodeLE(bytes), 8);
    }

    method ReadBoolean() returns (b: bool)
      requires pos + 1 <= |data|
      modifies this
      ensures b <==> data[old(pos)] != 0
      ensures pos == old(pos) + 1
    {
      var v := ReadUint8();
      b := v != 0;
    }

    method ReadByte() returns (v: byte)
      requires pos + 1 <= |data|
      modifies this
      ensures v == data[old(pos)] && pos == old(pos) + 1
    {
      v := ReadUint8();
    }

    /** A `char` is one byte. */
    method ReadChar() returns (c: byte)
      requires pos + 1 <= |data|
      modifies this
      ensures c == data[old(pos)] && pos == old(pos) + 1
    {
      var bytes := StreamRead(1);
      c := bytes[0];
    }

    /** A wide character is one 2-byte unit. */
    method ReadCharWide() returns (c: uint16)
      requires pos + 2 <= |data|
      modifies this
      ensures c == DecodeLE(data[old(pos) .. old(pos) + 2]) && pos == old(pos) + 2
    {
      WidthBounds();
      var bytes := StreamRead(2);
      c := DecodeLE(bytes);
    }

    /** The bytes up to the first NUL at or after the cursor; the cursor ends
        one past that NUL. */
    method ReadNullTerminatedString() returns (s: seq<byte>)
      requires HasByteFrom(data, pos, 0)
      modifies this
      ensures pos == IndexFrom(data, old(pos), 0) + 1
      ensures s == data[old(pos) .. pos - 1]
      ensures 0 !in s
    {
      ghost var start := pos;
      ghost var stop := IndexFrom(data, pos, 0);
      s := [];
      var c := PeekChar();
      while c != 0
        invariant start <= pos <= stop
        invariant s == data[start .. pos]
        invariant c == data[pos]
        decreases stop - pos
      {
        var charBuffer := StreamRead(1);
        s := s + charBuffer;
        c := PeekChar();
      }
      Skip(1);
    }

    /** Exactly `length` bytes from the cursor, with no terminator handling. */
    method ReadFixedLengthString(length: nat) returns (s: seq<byte>)
      requires pos + length <= |data|
      modifies this
      ensures s == data[old(pos) .. old(pos) + length]
      ensures pos == old(pos) + length
    {
      ghost var start := pos;
      s := [];
      for i := 0 to length
        invariant pos == start + i
        invariant s == data[start .. pos]
      {
        var charBuffer := StreamRead(1);
        s := s + charBuffer;
      }
    }

    /** The 2-byte units up to the first zero unit, stepping from the cursor
        by whole units; the cursor ends one unit past the zero unit. */
    method ReadNullTerminatedStringWide() returns (s: seq<uint16>)
      requires HasZeroUnitFrom(data, pos)
      modifies this
      ensures pos == old(pos) + 2 * FirstZeroUnit(data, old(pos)) + 2
      ensures s == WideString(data, old(pos)) && 0 !in s
    {
      ghost var start := pos;
      ghost var units := 0;
      s := [];
      WideProgressStart(data, start);
      var c := PeekCharWide();
      while c != 0
        invariant pos == start + 2 * units && WideProgress(data, start, units, s)
        invariant c == DecodeLE(data[pos .. pos + 2])
        decreases FirstZeroUnit(data, start) - units
      {
        WideProgressStep(data, start, units, s);
        var charBuffer := ReadCharWide();
        s := s + [charBuffer];
        units := units + 1;
        c := PeekCharWide();
      }
      WideProgressEnd(data, start, units, s);
      Skip(2);
    }

    /** Exactly `length` 2-byte units from the cursor. */
    method ReadFixedLengthStringWide(length: nat) returns (s: seq<uint16>)
      requires pos + 2 * length <= |data|
      modifies this
      ensures s == WideUnits(data[old(pos) .. old(pos) + 2 * length])
      ensures pos == old(pos) + 2 * length
    {
      ghost var start := pos;
      s := [];
      for i := 0 to length
        invariant pos == start + 2 * i
        invariant s == WideUnits(data[start .. pos])
      {
        WideUnitsExtend(data, start, pos);
        var charBuffer := ReadCharWide();
        s := s + [charBuffer];
      }
    }

    /** Null-terminated strings read back to back until `listSize` bytes from
        the starting cursor are used up, skipping NUL padding between them one
        byte at a time. The requirement that some NUL lies at or after the last
        byte of the budget is what keeps every read inside the data. */
    method ReadSizedStringList(listSize: nat) returns (stringList: seq<seq<byte>>)
      requires listSize > 0 ==> HasByteFrom(data, pos + listSize - 1, 0)
      modifies this
      ensures listSize == 0 ==> stringList == [] && pos == old(pos)
      ensures listSize > 0 ==> (stringList, pos) == ParseStringList(data, old(pos), old(pos) + listSize)
    {
      stringList := [];
      if listSize == 0 {
        return;
      }
      var startPos := Position();
      ghost var end := startPos + listSize;
      ListProgressStart(data, startPos, end);
      while Position() - startPos < listSize
        invariant ListProgress(data, startPos, end, pos, stringList)
        decreases end - pos
      {
        ghost var p := pos;
        ghost var before := stringList;
        HasByteFromEarlier(data, end - 1, pos, 0);
        var s := ReadNullTerminatedString();
        stringList := stringList + [s];
        ghost var k := pos - 1;
        SkipListPadding(startPos, listSize);
        ListProgressStep(data, startPos, end, p, before, k, pos);
      }
    }

    /** The inner loop of `ReadSizedStringList`: while the budget that began
        at `startPos` lasts, skip NUL bytes one at a time. */
    method SkipListPadding(startPos: nat, listSize: nat)
      requires startPos + listSize <= |data|
      modifies this
      ensures pos == SkipPadding(data, old(pos), startPos + listSize)
    {
      ghost var end := startPos + listSize;
      ghost var from := pos;
      while Position() - startPos < listSize
        invariant from <= pos
        invariant SkipPadding(data, pos, end) == SkipPadding(data, from, end)
        decreases end - pos
      {
        var c := PeekChar();
        if c == 0 {
          Skip(1);
        } else {
          break;
        }
      }
    }

    method PeekChar() returns (c: byte)
      requires pos < |data|
      modifies this
      ensures pos == old(pos) && c == data[pos]
    {
      c := ReadChar();
      SeekReverse(1);
    }

    method PeekCharWide() returns (c: uint16)
      requires pos + 2 <= |data|
      modifies this
      ensures pos == old(pos) && c == DecodeLE(data[pos .. pos + 2])
    {
      c := ReadCharWide();
      SeekReverse(2);
    }

    method PeekUint32() returns (v: uint32)
      requires pos + 4 <= |data|
      modifies this
      ensures pos == old(pos) && v == DecodeLE(data[pos .. pos + 4])
    {
      v := ReadUint32();
      SeekReverse(4);
    }

    method SeekBeg(absoluteOffset: nat)
      modifies this
      ensures pos == absoluteOffset
    {
      pos := absoluteOffset;
    }

    method SeekCur(relativeOffset: nat)
      modifies this
      ensures pos == old(pos) + relativeOffset
    {
      pos := pos + relativeOffset;
    }

    /** Moves the cursor back, stopping at the beginning of the stream. */
    method SeekReverse(relativeOffset: nat)
      modifies this
      ensures pos == if relativeOffset <= old(pos) then old(pos) - relativeOffset else 0
    {
      var delta := if Position() <= relativeOffset then Position() else relativeOffset;
      var targetOffset := Position() - delta;
      SeekBeg(targetOffset);
    }

    method Skip(bytesToSkip: nat)
      modifies this
      ensures pos == old(pos) + bytesToSkip
    {
      pos := pos + bytesToSkip;
    }

    /** Skips to the next multiple of `alignmentValue` and returns the
        number of bytes skipped. */
    method Align(alignmentValue: nat := 2048) returns (paddingSize: nat)
      requires alignmentValue >= 1
      modifies this
      ensures paddingSize == CalcAlign(old(pos), alignmentValue)
      ensures pos == old(pos) + paddingSize
      ensures pos % alignmentValue == 0
    {
      var remainder := Position() % alignmentValue;
      paddingSize := if remainder > 0 then alignmentValue - remainder else 0;
      Skip(paddingSize);
    }

    function Position(): (p: nat)
      reads this
      ensures p == pos
    {
      pos
    }

    /** Saves the cursor, seeks to the end to learn the length, and puts the
        cursor back. */
    method Length() returns (length: nat)
      modifies this
      ensures length == |data| && pos == old(pos)
    {
      var realPosition := Position();
      pos := |data|;
      var endPosition := Position();
      if realPosition != endPosition {
        SeekBeg(realPosition);
      }
      length := endPosition;
    }
  }
}
