/** The writer of include/binary_tools/BinaryWriter.hpp: typed encoding into a
    byte sink at a cursor. A file sink grows when a write runs past its end;
    a memory sink has a fixed size, and a write or skip past it is excluded
    by a precondition. */
module Writer {
  import opened Bytes
  import opened Alignment

  /** `content` after `bytes` are written at `at`; the content grows when
      the write runs past its end. */
  function Overwrite(content: seq<byte>, at: nat, bytes: seq<byte>): (r: seq<byte>)
    requires at <= |content|
    ensures |r| == if at + |bytes| <= |content| then |content| else at + |bytes|
  {
    content[..at] + bytes + (if at + |bytes| <= |content| then content[at + |bytes| ..] else [])
  }

  /** The written range holds `bytes` and every other byte keeps its value. */
  lemma OverwriteAt(content: seq<byte>, at: nat, bytes: seq<byte>)
    requires at <= |content|
    ensures var r := Overwrite(content, at, bytes);
      forall i :: 0 <= i < |r| ==> r[i] == if at <= i < at + |bytes| then bytes[i - at] else content[i]
  {
    var r := Overwrite(content, at, bytes);
    forall i | 0 <= i < |r| ensures r[i] == if at <= i < at + |bytes| then bytes[i - at] else content[i] {
      if i < at {
        assert r[i] == content[..at][i];
      } else if i < at + |bytes| {
        assert r[i] == (content[..at] + bytes)[i];
      }
    }
  }

  /** Two writes back to back are one write of both. */
  lemma OverwriteConcat(content: seq<byte>, at: nat, a: seq<byte>, b: seq<byte>)
    requires at <= |content|
    ensures Overwrite(Overwrite(content, at, a), at + |a|, b) == Overwrite(content, at, a + b)
  {
    var lhs := Overwrite(Overwrite(content, at, a), at + |a|, b);
    var rhs := Overwrite(content, at, a + b);
    OverwriteAt(content, at, a);
    OverwriteAt(Overwrite(content, at, a), at + |a|, b);
    OverwriteAt(content, at, a + b);
    assert |lhs| == |rhs|;
    forall i | 0 <= i < |lhs| ensures lhs[i] == rhs[i] {
      if at + |a| <= i < at + |a| + |b| {
        assert (a + b)[i - at] == b[i - at - |a|];
      } else if at <= i < at + |a| {
        assert (a + b)[i - at] == a[i - at];
      }
    }
  }

  /** Writing at the end appends. */
  lemma OverwriteAtEnd(content: seq<byte>, bytes: seq<byte>)
    ensures Overwrite(content, |content|, bytes) == content + bytes
  {
    var r := Overwrite(content, |content|, bytes);
    OverwriteAt(content, |content|, bytes);
    assert |r| == |content + bytes|;
    forall i | 0 <= i < |r| ensures r[i] == (content + bytes)[i] { }
  }

  /** The written range reads back as the bytes written. */
  lemma OverwriteRead(content: seq<byte>, at: nat, bytes: seq<byte>)
    requires at <= |content|
    ensures Overwrite(content, at, bytes)[at .. at + |bytes|] == bytes
  {
    var r := Overwrite(content, at, bytes);
    OverwriteAt(content, at, bytes);
    forall i | 0 <= i < |bytes| ensures r[at .. at + |bytes|][i] == bytes[i] {
      assert r[at + i] == bytes[i];
    }
  }

  /** Two writes back to back each read back as written: the second does
      not disturb the first. */
  lemma OverwritePair(content: seq<byte>, at: nat, a: seq<byte>, b: seq<byte>)
    requires at <= |content|
    ensures var r := Overwrite(Overwrite(content, at, a), at + |a|, b);
      && at + |a| + |b| <= |r|
      && r[at .. at + |a|] == a
      && r[at + |a| .. at + |a| + |b|] == b
  {
    OverwriteConcat(content, at, a, b);
    OverwriteRead(content, at, a + b);
    var r := Overwrite(content, at, a + b);
    assert r[at .. at + |a|] == r[at .. at + |a| + |b|][..|a|];
    assert r[at + |a| .. at + |a| + |b|] == r[at .. at + |a| + |b|][|a|..];
  }

  class BinaryWriter {
    /** The bytes of the sink. */
    var content: seq<byte>
    /** The stream cursor (`tellp`). Seeking may place it past the end. */
    var pos: nat
    /** True for the memory-buffer constructor: the sink cannot grow. */
    const fixedSize: bool

    /** Opens a file sink. With `truncate` the existing contents are cleared;
        without it they are kept, so writes patch them in place. */
    constructor File(existing: seq<byte>, truncate: bool := true)
      ensures content == (if truncate then [] else existing)
      ensures pos == 0 && !fixedSize
    {
      content := if truncate then [] else existing;
      pos := 0;
      fixedSize := false;
    }

    /** Writes into a fixed-size memory buffer. */
    constructor Memory(buffer: seq<byte>)
      ensures content == buffer && pos == 0 && fixedSize
    {
      content := buffer;
      pos := 0;
      fixedSize := true;
    }

    /** The stream primitive `write(bytes, n)` every write goes through. */
    method StreamWrite(bytes: seq<byte>)
      requires pos <= |content| && (fixedSize ==> pos + |bytes| <= |content|)
      modifies this
      ensures content == Overwrite(old(content), old(pos), bytes)
      ensures pos == old(pos) + |bytes|
    {
      content := Overwrite(content, pos, bytes);
      pos := pos + |bytes|;
    }

    method WriteUint8(value: byte)
      requires pos <= |content| && (fixedSize ==> pos + 1 <= |content|)
      modifies this
      ensures content == Overwrite(old(content), old(pos), [value])
      ensures pos == old(pos) + 1
    {
      StreamWrite([value]);
    }

    method WriteUint16(value: uint16)
      requires pos <= |content| && (fixedSize ==> pos + 2 <= |content|)
      modifies this
      ensures content == Overwrite(old(content), old(pos), EncodeLE(value, 2))
      ensures pos == old(pos) + 2
    {
      WidthBounds();
      StreamWrite(EncodeLE(value, 2));
    }

    method WriteUint32(value: uint32)
      requires pos <= |content| && (fixedSize ==> pos + 4 <= |content|)
      modifies this
      ensures content == Overwrite(old(content), old(pos), EncodeLE(value, 4))
      ensures pos == old(pos) + 4
    {
      WidthBounds();
      StreamWrite(EncodeLE(value, 4));
    }

    method WriteUint64(value: uint64)
      requires pos <= |content| && (fixedSize ==> pos + 8 <= |content|)
      modifies this
      ensures content == Overwrite(old(content), old(pos), EncodeLE(value, 8))
      ensures pos == old(pos) + 8
    {
      WidthBounds();
      StreamWrite(EncodeLE(value, 8));
    }

    method WriteInt8(value: int8)
      requires pos <= |content| && (fixedSize ==> pos + 1 <= |content|)
      modifies this
      ensures content == Overwrite(old(content), old(pos), EncodeLE(FromSigned(value, 1), 1))
      ensures pos == old(pos) + 1
    {
      WidthBounds();
      StreamWrite(EncodeLE(FromSigned(value, 1), 1));
    }

    method WriteInt16(value: int16)
      requires pos <= |content| && (fixedSize ==> pos + 2 <= |content|)
      modifies this
      ensures content == Overwrite(old(content), old(pos), EncodeLE(FromSigned(value, 2), 2))
      ensures pos == old(pos) + 2
    {
      WidthBounds();
      StreamWrite(EncodeLE(FromSigned(value, 2), 2));
    }

    method WriteInt32(value: int32)
      requires pos <= |content| && (fixedSize ==> pos + 4 <= |content|)
      modifies this
      ensures content == Overwrite(old(content), old(pos), EncodeLE(FromSigned(value, 4), 4))
      ensures pos == old(pos) + 4
    {
      WidthBounds();
      StreamWrite(EncodeLE(FromSigned(value, 4), 4));
    }

    method WriteInt64(value: int64)
      requires pos <= |content| && (fixedSize ==> pos + 8 <= |content|)
      modifies this
      ensures content == Overwrite(old(content), old(pos), EncodeLE(FromSigned(value, 8), 8))
      ensures pos == old(pos) + 8
    {
      WidthBounds();
      StreamWrite(EncodeLE(FromSigned(value, 8), 8));
    }

    /** A `bool` is stored as the byte 1 or 0. */
    method WriteBoolean(value: bool)
      requires pos <= |content| && (fixedSize ==> pos + 1 <= |content|)
      modifies this
      ensures content == Overwrite(old(content), old(pos), [if value then 1 else 0])
      ensures pos == old(pos) + 1
    {
      StreamWrite([if value then 1 else 0]);
    }

    method WriteByte(value: byte)
      requires pos <= |content| && (fixedSize ==> pos + 1 <= |content|)
      modifies this
      ensures content == Overwrite(old(content), old(pos), [value])
      ensures pos == old(pos) + 1
    {
      StreamWrite([value]);
    }

    /** The C++ pointer and size become one sequence. */
    method WriteBytes(bytes: seq<byte>)
      requires pos <= |content| && (fixedSize ==> pos + |bytes| <= |content|)
      modifies this
      ensures content == Overwrite(old(content), old(pos), bytes)
      ensures pos == old(pos) + |bytes|
    {
      StreamWrite(bytes);
    }

    method WriteChar(value: byte)
      requires pos <= |content| && (fixedSize ==> pos + 1 <= |content|)
      modifies this
      ensures content == Overwrite(old(content), old(pos), [value])
      ensures pos == old(pos) + 1
    {
      StreamWrite([value]);
    }

    /** The string's bytes followed by one NUL. */
    method WriteNullTerminatedString(value: seq<byte>)
      requires pos <= |content| && (fixedSize ==> pos + |value| + 1 <= |content|)
      modifies this
      ensures content == Overwrite(old(content), old(pos), value + [0])
      ensures pos == old(pos) + |value| + 1
    {
      StreamWrite(value);
      OverwriteConcat(old(content), old(pos), value, [0]);
      WriteChar(0);
    }

    /** The string's bytes, with no terminator. */
    method WriteFixedLengthString(value: seq<byte>)
      requires pos <= |content| && (fixedSize ==> pos + |value| <= |content|)
      modifies this
      ensures content == Overwrite(old(content), old(pos), value)
      ensures pos == old(pos) + |value|
    {
      StreamWrite(value);
    }

    method SeekBeg(absoluteOffset: nat)
      modifies this
      ensures pos == absoluteOffset && content == old(content)
    {
      pos := absoluteOffset;
    }

    method SeekCur(relativeOffset: nat)
      modifies this
      ensures pos == old(pos) + relativeOffset && content == old(content)
    {
      pos := pos + relativeOffset;
    }

    /** Advances the cursor; the part of the skip that runs past the end of
        the content is filled with zero bytes, so the sink has no gap. When
        the cursor already lies past the end, the C++ `size_t` subtraction
        wraps around and the relative seek lands back on the end; the signed
        arithmetic below reaches the same positions. */
    method Skip(bytesToSkip: nat)
      requires fixedSize ==> pos + bytesToSkip <= |content|
      modifies this
      ensures pos == old(pos) + bytesToSkip
      ensures old(pos) + bytesToSkip <= |old(content)| ==> content == old(content)
      ensures old(pos) + bytesToSkip > |old(content)| ==>
                content == old(content) + Zeros(old(pos) + bytesToSkip - |old(content)|)
    {
      var position := Position();
      var length := Length();
      if position + bytesToSkip > length {
        var bytesAvailable: int := length - position;
        var bytesNeeded: nat := bytesToSkip - bytesAvailable;
        pos := position + bytesAvailable;
        OverwriteAtEnd(content, Zeros(bytesNeeded));
        WriteNullBytes(bytesNeeded);
      } else {
        pos := pos + bytesToSkip;
      }
    }

    /** `bytesToWrite` zero bytes written one at a time. */
    method WriteNullBytes(bytesToWrite: nat)
      requires pos <= |content| && (fixedSize ==> pos + bytesToWrite <= |content|)
      modifies this
      ensures content == Overwrite(old(content), old(pos), Zeros(bytesToWrite))
      ensures pos == old(pos) + bytesToWrite
    {
      ghost var start := pos;
      ghost var original := content;
      for i := 0 to bytesToWrite
        invariant pos == start + i
        invariant content == Overwrite(original, start, Zeros(i))
      {
        OverwriteConcat(original, start, Zeros(i), [0]);
        assert Zeros(i) + [0] == Zeros(i + 1);
        WriteUint8(0);
      }
    }

    /** Pads up to the next multiple of `alignmentValue` through `Skip`, so
        padding past the end is explicit zero bytes; returns the padding. */
    method Align(alignmentValue: nat := 2048) returns (paddingSize: nat)
      requires alignmentValue >= 1
      requires fixedSize ==> pos + CalcAlign(pos, alignmentValue) <= |content|
      modifies this
      ensures paddingSize == CalcAlign(old(pos), alignmentValue)
      ensures pos == old(pos) + paddingSize && pos % alignmentValue == 0
      ensures pos <= |old(content)| ==> content == old(content)
      ensures pos > |old(content)| ==> content == old(content) + Zeros(pos - |old(content)|)
    {
      paddingSize := CalcAlign(Position(), alignmentValue);
      Skip(paddingSize);
    }

    function Position(): (p: nat)
      reads this
      ensures p == pos
    {
      pos
    }

    /** Saves the cursor, seeks to the end to learn the length, and puts the
        cursor back. */
    method Length() returns (length: nat)
      modifies this
      ensures length == |content|
      ensures pos == old(pos) && content == old(content)
    {
      var realPosition := Position();
      pos := |content|;
      var endPosition := Position();
      if realPosition != endPosition {
        SeekBeg(realPosition);
      }
      length := endPosition;
    }
  }
}
