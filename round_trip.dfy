/** The two sides together: what a `BinaryWriter` puts into a sink, a
    `BinaryReader` over the same bytes gets back. Each method below is a
    client that writes, opens a reader on the resulting content, seeks to
    where the writing began and reads. */
module RoundTrip {
  import opened Bytes
  import opened Alignment
  import opened Scanning
  import Writer
  import Reader
  import LegacyReader

  /** A 1-byte unsigned and a 1-byte signed value written into a fixed-size
      memory buffer read back unchanged. */
  method RoundTrip8(buffer: seq<byte>, at: nat, u: byte, i: int8) returns (ru: byte, ri: int8)
    requires at + 2 <= |buffer|
    ensures ru == u && ri == i
  {
    WidthBounds();
    var w := new Writer.BinaryWriter.Memory(buffer);
    w.SeekBeg(at);
    w.WriteUint8(u);
    w.WriteInt8(i);
    ghost var e := EncodeLE(FromSigned(i, 1), 1);
    Writer.OverwritePair(buffer, at, [u], e);
    assert w.content[at] == u by {
      assert w.content[at .. at + 1][0] == w.content[at];
    }
    assert w.content[at + 1] == FromSigned(i, 1) by {
      assert w.content[at + 1 .. at + 2][0] == w.content[at + 1];
      assert e == [e[0]] && DecodeLE([e[0]]) == e[0];
    }
    var r := new Reader.BinaryReader(w.content);
    r.SeekBeg(at);
    ru := r.ReadUint8();
    ri := r.ReadInt8();
  }

  method RoundTrip16(existing: seq<byte>, at: nat, u: uint16, i: int16) returns (ru: uint16, ri: int16)
    requires at <= |existing|
    ensures ru == u && ri == i
  {
    WidthBounds();
    var w := new Writer.BinaryWriter.File(existing, false);
    w.SeekBeg(at);
    w.WriteUint16(u);
    w.WriteInt16(i);
    Writer.OverwritePair(existing, at, EncodeLE(u, 2), EncodeLE(FromSigned(i, 2), 2));
    var r := new Reader.BinaryReader(w.content);
    r.SeekBeg(at);
    ru := r.ReadUint16();
    ri := r.ReadInt16();
  }

  method RoundTrip32(existing: seq<byte>, at: nat, u: uint32, i: int32) returns (ru: uint32, ri: int32)
    requires at <= |existing|
    ensures ru == u && ri == i
  {
    WidthBounds();
    var w := new Writer.BinaryWriter.File(existing, false);
    w.SeekBeg(at);
    w.WriteUint32(u);
    w.WriteInt32(i);
    Writer.OverwritePair(existing, at, EncodeLE(u, 4), EncodeLE(FromSigned(i, 4), 4));
    var r := new Reader.BinaryReader(w.content);
    r.SeekBeg(at);
    ru := r.ReadUint32();
    ri := r.ReadInt32();
  }

  method RoundTrip64(existing: seq<byte>, at: nat, u: uint64, i: int64) returns (ru: uint64, ri: int64)
    requires at <= |existing|
    ensures ru == u && ri == i
  {
    WidthBounds();
    var w := new Writer.BinaryWriter.File(existing, false);
    w.SeekBeg(at);
    w.WriteUint64(u);
    w.WriteInt64(i);
    Writer.OverwritePair(existing, at, EncodeLE(u, 8), EncodeLE(FromSigned(i, 8), 8));
    var r := new Reader.BinaryReader(w.content);
    r.SeekBeg(at);
    ru := r.ReadUint64();
    ri := r.ReadInt64();
  }

  method RoundTripBoolean(existing: seq<byte>, at: nat, b: bool) returns (rb: bool)
    requires at <= |existing|
    ensures rb == b
  {
    var w := new Writer.BinaryWriter.File(existing, false);
    w.SeekBeg(at);
    w.WriteBoolean(b);
    Writer.OverwriteRead(existing, at, [if b then 1 else 0]);
    var r := new Reader.BinaryReader(w.content);
    r.SeekBeg(at);
    rb := r.ReadBoolean();
  }

  /** A NUL-terminated string written and read back is the same string,
      and the read ends just past its terminator, where the next value
      begins. */
  method RoundTripString(existing: seq<byte>, at: nat, s: seq<byte>) returns (rs: seq<byte>, end: nat)
    requires at <= |existing| && 0 !in s
    ensures rs == s && end == at + |s| + 1
  {
    var w := new Writer.BinaryWriter.File(existing, false);
    w.SeekBeg(at);
    w.WriteNullTerminatedString(s);
    Writer.OverwriteRead(existing, at, s + [0]);
    var r := new Reader.BinaryReader(w.content);
    r.SeekBeg(at);
    TerminatorAt(r.data, at, s);
    rs := r.ReadNullTerminatedString();
    end := r.Position();
  }

  /** If `s + [0]` sits at `p` and `s` has no NUL, the first NUL from `p` is
      the one right after `s`. */
  lemma TerminatorAt(data: seq<byte>, p: nat, s: seq<byte>)
    requires p + |s| + 1 <= |data| && data[p .. p + |s| + 1] == s + [0] && 0 !in s
    ensures HasByteFrom(data, p, 0) && IndexFrom(data, p, 0) == p + |s|
    ensures data[p .. p + |s|] == s
  {
    assert data[p + |s|] == (s + [0])[|s|] == 0;
    forall j | p <= j < p + |s| ensures data[j] != 0 {
      assert data[j] == (s + [0])[j - p] == s[j - p];
    }
    IndexFromUnique(data, p, 0, p + |s|);
    assert data[p .. p + |s|] == data[p .. p + |s| + 1][..|s|];
  }

  /** A fixed-length string is any bytes, NULs included, and reads back
      exactly. */
  method RoundTripFixedLengthString(existing: seq<byte>, at: nat, s: seq<byte>) returns (rs: seq<byte>)
    requires at <= |existing|
    ensures rs == s
  {
    var w := new Writer.BinaryWriter.File(existing, false);
    w.SeekBeg(at);
    w.WriteFixedLengthString(s);
    Writer.OverwriteRead(existing, at, s);
    var r := new Reader.BinaryReader(w.content);
    r.SeekBeg(at);
    rs := r.ReadFixedLengthString(|s|);
  }

  /** A skip past the end of a fresh file leaves a gap of zero bytes between
      the values on either side, and neither value is lost. */
  method RoundTripSkip(before: uint32, gap: nat, after: uint32) returns (rb: uint32, rg: seq<byte>, ra: uint32)
    ensures rb == before && rg == Zeros(gap) && ra == after
  {
    WidthBounds();
    ghost var first := EncodeLE(before, 4);
    ghost var last := EncodeLE(after, 4);
    var w := new Writer.BinaryWriter.File([], true);
    w.WriteUint32(before);
    Writer.OverwriteAtEnd([], first);
    assert w.content == first;
    w.Skip(gap);
    assert w.content == first + Zeros(gap) by {
      if gap == 0 {
        assert Zeros(0) == [];
      }
    }
    w.WriteUint32(after);
    Writer.OverwriteAtEnd(first + Zeros(gap), last);
    var r := new Reader.BinaryReader(w.content);
    ThreeParts(first, Zeros(gap), last);
    rb := r.ReadUint32();
    rg := r.ReadFixedLengthString(gap);
    ra := r.ReadUint32();
  }

  /** Each part of a three-part concatenation is a slice of it. */
  lemma ThreeParts(a: seq<byte>, b: seq<byte>, c: seq<byte>)
    ensures (a + b + c)[..|a|] == a
    ensures (a + b + c)[|a| .. |a| + |b|] == b
    ensures (a + b + c)[|a| + |b| .. |a| + |b| + |c|] == c
  {
  }

  /** One entry of a sized string list appended at the end of a file: the
      string, its NUL terminator, then zero padding up to the alignment. */
  method WriteEntry(w: Writer.BinaryWriter, s: seq<byte>, alignmentValue: nat) returns (pad: nat)
    requires !w.fixedSize && w.pos == |w.content| && alignmentValue >= 1
    modifies w
    ensures w.content == old(w.content) + (s + [0] + Zeros(pad)) && w.pos == |w.content|
    ensures pad == CalcAlign(|old(w.content)| + |s| + 1, alignmentValue)
    ensures |w.content| % alignmentValue == 0
  {
    Writer.OverwriteAtEnd(w.content, s + [0]);
    w.WriteNullTerminatedString(s);
    pad := w.Align(alignmentValue);
    if pad == 0 {
      assert Zeros(0) == [];
    }
  }

  /** A producer of a sized string list: its entries one after another. The
      padding written after each string is returned as a ghost. */
  method WriteStringList(w: Writer.BinaryWriter, strings: seq<seq<byte>>, alignmentValue: nat)
    returns (ghost pads: seq<nat>)
    requires !w.fixedSize && w.pos == |w.content| && alignmentValue >= 1
    modifies w
    ensures |pads| == |strings|
    ensures forall i :: 0 <= i < |pads| ==> pads[i] < alignmentValue
    ensures w.content == old(w.content) + Pack(strings, pads) && w.pos == |w.content|
  {
    ghost var start := w.content;
    pads := [];
    for i := 0 to |strings|
      invariant |pads| == i
      invariant forall j :: 0 <= j < i ==> pads[j] < alignmentValue
      invariant w.content == start + Pack(strings[..i], pads) && w.pos == |w.content|
    {
      ghost var packed := Pack(strings[..i], pads);
      var pad := WriteEntry(w, strings[i], alignmentValue);
      ghost var entry := strings[i] + [0] + Zeros(pad);
      PackSnoc(strings[..i], pads, strings[i], pad);
      assert strings[..i + 1] == strings[..i] + [strings[i]];
      assert Pack(strings[..i + 1], pads + [pad]) == packed + entry;
      AppendAssoc(start, packed, entry);
      pads := pads + [pad];
    }
    assert strings[..|strings|] == strings;
  }

  /** A sized string list written by that producer into a fresh file and
      read back with the number of bytes written as its size gives back the
      strings, and the read ends exactly where the writing ended. An empty
      list writes nothing and reads back empty. */
  method RoundTripStringList(strings: seq<seq<byte>>, alignmentValue: nat) returns (rl: seq<seq<byte>>, end: nat, size: nat)
    requires Packable(strings) && alignmentValue >= 1
    ensures rl == strings && end == size
  {
    var w := new Writer.BinaryWriter.File([], true);
    ghost var pads := WriteStringList(w, strings, alignmentValue);
    assert w.content == Pack(strings, pads);
    size := w.Position();
    if |strings| >= 1 {
      ParsePacked(strings, pads);
      rl, end := ReadStringList(w.content);
    } else {
      var r := new Reader.BinaryReader(w.content);
      rl := r.ReadSizedStringList(size);
      end := r.Position();
    }
  }

  /** A consumer of a sized string list: a reader over `data` that reads
      the whole of it as one list. */
  method ReadStringList(data: seq<byte>) returns (rl: seq<seq<byte>>, end: nat)
    requires |data| >= 1 && HasByteFrom(data, |data| - 1, 0)
    ensures (rl, end) == ParseStringList(data, 0, |data|)
  {
    var r := new Reader.BinaryReader(data);
    rl := r.ReadSizedStringList(|data|);
    end := r.Position();
  }

  /** The legacy reader leaves its cursor on the line feed, so reading a
      string twice gives the text up to the line feed and then nothing. */
  method LegacyStringTwice(data: seq<byte>) returns (first: seq<byte>, second: seq<byte>, at: nat)
    requires HasByteFrom(data, 0, LegacyReader.LineFeed)
    ensures at == IndexFrom(data, 0, LegacyReader.LineFeed) && data[at] == LegacyReader.LineFeed
    ensures first == data[..at] && LegacyReader.LineFeed !in first
    ensures second == []
  {
    var r := new LegacyReader.BinaryReader(data);
    first := r.ReadNullTerminatedString();
    second := r.ReadNullTerminatedString();
    at := r.pos;
  }
}
