/** Byte-level encoding of the fixed-width scalars that the reader and the
    writer transfer. The C++ code copies the raw bits of a value in the
    machine's native order; this model fixes that order to little-endian
    and uses two's complement for the signed widths. */
module Bytes {

  type byte = b: int | 0 <= b < 0x100
  type uint16 = x: int | 0 <= x < 0x1_0000
  type uint32 = x: int | 0 <= x < 0x1_0000_0000
  type uint64 = x: int | 0 <= x < 0x1_0000_0000_0000_0000
  type int8 = x: int | -0x80 <= x < 0x80
  type int16 = x: int | -0x8000 <= x < 0x8000
  type int32 = x: int | -0x8000_0000 <= x < 0x8000_0000
  type int64 = x: int | -0x8000_0000_0000_0000 <= x < 0x8000_0000_0000_0000

  /** Number of distinct values of a `width`-byte unsigned integer. */
  function Pow256(width: nat): (r: nat)
    ensures r >= 1
  {
    if width == 0 then 1 else 0x100 * Pow256(width - 1)
  }

  /** Values of a `width`-byte signed integer lie in [-SignBound, SignBound). */
  function SignBound(width: nat): (r: int)
    requires width >= 1
    ensures r > 0
  {
    0x80 * Pow256(width - 1)
  }

  /** The sizes of the C++ fixed-width integer types. */
  lemma WidthBounds()
    ensures Pow256(1) == 0x100 && SignBound(1) == 0x80
    ensures Pow256(2) == 0x1_0000 && SignBound(2) == 0x8000
    ensures Pow256(4) == 0x1_0000_0000 && SignBound(4) == 0x8000_0000
    ensures Pow256(8) == 0x1_0000_0000_0000_0000 && SignBound(8) == 0x8000_0000_0000_0000
  {
  }

  /** The unsigned value that a little-endian byte sequence stands for. */
  function DecodeLE(s: seq<byte>): (r: nat)
    ensures r < Pow256(|s|)
  {
    if s == [] then 0 else s[0] + 0x100 * DecodeLE(s[1..])
  }

  /** The `width` bytes, least significant first, that stand for `v`. */
  function EncodeLE(v: nat, width: nat): (r: seq<byte>)
    requires v < Pow256(width)
    ensures |r| == width
    ensures DecodeLE(r) == v
  {
    if width == 0 then [] else [v % 0x100] + EncodeLE(v / 0x100, width - 1)
  }

  /** Encoding is also a left inverse of decoding: each byte sequence is the
      encoding of the value it decodes to. */
  lemma {:induction false} EncodeDecode(s: seq<byte>)
    ensures EncodeLE(DecodeLE(s), |s|) == s
  {
    if s != [] {
      EncodeDecode(s[1..]);
      assert DecodeLE(s) % 0x100 == s[0];
      assert DecodeLE(s) / 0x100 == DecodeLE(s[1..]);
    }
  }

  /** Reinterprets the bits of an unsigned `width`-byte value as two's complement. */
  function ToSigned(u: nat, width: nat): (r: int)
    requires width >= 1 && u < Pow256(width)
    ensures -SignBound(width) <= r < SignBound(width)
    ensures r >= 0 <==> u < SignBound(width)
  {
    if u < SignBound(width) then u else u - Pow256(width)
  }

  /** The bits of a two's complement `width`-byte value, read as unsigned. */
  function FromSigned(i: int, width: nat): (r: nat)
    requires width >= 1 && -SignBound(width) <= i < SignBound(width)
    ensures r < Pow256(width)
    ensures r < SignBound(width) <==> i >= 0
  {
    if i >= 0 then i else i + Pow256(width)
  }

  lemma SignedRoundTrip(i: int, width: nat)
    requires width >= 1 && -SignBound(width) <= i < SignBound(width)
    ensures ToSigned(FromSigned(i, width), width) == i
  {
  }

  lemma UnsignedRoundTrip(u: nat, width: nat)
    requires width >= 1 && u < Pow256(width)
    ensures FromSigned(ToSigned(u, width), width) == u
  {
  }

  /** The 2-byte units (wide characters) that an even-length byte sequence holds. */
  function WideUnits(s: seq<byte>): (r: seq<uint16>)
    requires |s| % 2 == 0
    ensures |r| == |s| / 2
  {
    if s == [] then [] else [DecodeLE(s[..2])] + WideUnits(s[2..])
  }

  /** Unit `i` of the result is the value of bytes `2i` and `2i + 1`. */
  lemma {:induction false} WideUnitsAt(s: seq<byte>)
    requires |s| % 2 == 0
    ensures forall i :: 0 <= i < |s| / 2 ==> WideUnits(s)[i] == DecodeLE(s[2 * i .. 2 * i + 2])
  {
    if s != [] {
      WideUnitsAt(s[2..]);
      forall i | 0 <= i < |s| / 2 ensures WideUnits(s)[i] == DecodeLE(s[2 * i .. 2 * i + 2]) {
        if i > 0 {
          assert s[2..][2 * (i - 1) .. 2 * (i - 1) + 2] == s[2 * i .. 2 * i + 2];
        }
      }
    }
  }

  /** A 2-byte unit is zero exactly when both of its bytes are. */
  lemma WideZero(s: seq<byte>)
    requires |s| == 2
    ensures DecodeLE(s) == 0 <==> s[0] == 0 && s[1] == 0
  {
    assert DecodeLE(s) == s[0] + 0x100 * (s[1] + 0x100 * DecodeLE(s[2..]));
  }

  lemma {:induction false} WideUnitsAppend(s: seq<byte>, t: seq<byte>)
    requires |s| % 2 == 0 && |t| == 2
    ensures WideUnits(s + t) == WideUnits(s) + [DecodeLE(t)]
  {
    if s == [] {
      assert s + t == t && t[..2] == t && t[2..] == [];
    } else {
      assert (s + t)[2..] == s[2..] + t;
      assert (s + t)[..2] == s[..2];
      WideUnitsAppend(s[2..], t);
    }
  }

  /** `n` zero bytes, the padding the writer emits. */
  function Zeros(n: nat): (r: seq<byte>)
    ensures |r| == n
    ensures forall i :: 0 <= i < n ==> r[i] == 0
  {
    seq(n, _ => 0)
  }

  /** Decoding one more unit of a byte sequence appends its value. */
  lemma WideUnitsExtend(data: seq<byte>, start: nat, end: nat)
    requires start <= end && end + 2 <= |data| && (end - start) % 2 == 0
    ensures WideUnits(data[start .. end + 2]) == WideUnits(data[start .. end]) + [DecodeLE(data[end .. end + 2])]
  {
    WideUnitsAppend(data[start .. end], data[end .. end + 2]);
    assert data[start .. end] + data[end .. end + 2] == data[start .. end + 2];
  }
}
