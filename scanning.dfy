/** What the string readers compute, stated on the byte sequence alone:
    the scan for a terminator, the scan over NUL padding, the parse of a
    sized string list, and the packed layout that the parse inverts. */
module Scanning {
  import opened Bytes

  /** Some byte at index `from` or later equals `b`. */
  predicate HasByteFrom(data: seq<byte>, from: nat, b: byte) {
    exists i :: from <= i < |data| && data[i] == b
  }

  /** Index of the first `b` at or after `from`. */
  function IndexFrom(data: seq<byte>, from: nat, b: byte): (r: nat)
    requires HasByteFrom(data, from, b)
    ensures from <= r < |data| && data[r] == b
    ensures forall j :: from <= j < r ==> data[j] != b
    decreases |data| - from
  {
    if data[from] == b then from else IndexFrom(data, from + 1, b)
  }

  /** The first occurrence is the only index that is `b` with no `b` before it. */
  lemma IndexFromUnique(data: seq<byte>, from: nat, b: byte, r: nat)
    requires from <= r < |data| && data[r] == b
    requires forall j :: from <= j < r ==> data[j] != b
    ensures HasByteFrom(data, from, b)
    ensures IndexFrom(data, from, b) == r
  {
  }

  /** A terminator found from some index is also found from any earlier one. */
  lemma HasByteFromEarlier(data: seq<byte>, from: nat, earlier: nat, b: byte)
    requires earlier <= from && HasByteFrom(data, from, b)
    ensures HasByteFrom(data, earlier, b)
  {
  }

  /** The 2-byte unit `k` units after `from` is present and zero. */
  predicate ZeroUnitAt(data: seq<byte>, from: nat, k: nat) {
    from + 2 * k + 2 <= |data| && data[from + 2 * k] == 0 && data[from + 2 * k + 1] == 0
  }

  predicate HasZeroUnitFrom(data: seq<byte>, from: nat) {
    exists k: nat :: k < |data| && ZeroUnitAt(data, from, k)
  }

  /** Number of whole 2-byte units before the first zero unit at or after `from`. */
  function FirstZeroUnit(data: seq<byte>, from: nat): (k: nat)
    requires HasZeroUnitFrom(data, from)
    ensures ZeroUnitAt(data, from, k)
    ensures forall j: nat :: j < k ==> !ZeroUnitAt(data, from, j)
    decreases |data| - from
  {
    if ZeroUnitAt(data, from, 0) then 0
    else
      assert HasZeroUnitFrom(data, from + 2) by {
        var k: nat :| k < |data| && ZeroUnitAt(data, from, k);
        assert k >= 1;
        assert ZeroUnitAt(data, from + 2, k - 1);
      }
      var k := FirstZeroUnit(data, from + 2);
      assert ZeroUnitAt(data, from, k + 1);
      assert forall j: nat :: j < k + 1 ==> !ZeroUnitAt(data, from, j) by {
        forall j: nat | j < k + 1 ensures !ZeroUnitAt(data, from, j) {
          if j >= 1 {
            assert !ZeroUnitAt(data, from + 2, j - 1);
          }
        }
      }
      k + 1
  }

  /** The wide string at `from`: the units before the first zero unit. */
  function WideString(data: seq<byte>, from: nat): (s: seq<uint16>)
    requires HasZeroUnitFrom(data, from)
    ensures |s| == FirstZeroUnit(data, from)
  {
    WideUnits(data[from .. from + 2 * FirstZeroUnit(data, from)])
  }

  /** Unit `i` of the wide string is the `i`-th 2-byte unit from `from`, and
      it is not zero. */
  lemma WideStringAt(data: seq<byte>, from: nat, i: nat)
    requires HasZeroUnitFrom(data, from) && i < FirstZeroUnit(data, from)
    ensures from + 2 * i + 2 <= |data|
    ensures WideString(data, from)[i] == DecodeLE(data[from + 2 * i .. from + 2 * i + 2]) != 0
  {
    var k := FirstZeroUnit(data, from);
    assert ZeroUnitAt(data, from, k);
    var body := data[from .. from + 2 * k];
    WideUnitsAt(body);
    var unit := data[from + 2 * i .. from + 2 * i + 2];
    assert 2 * i + 2 <= 2 * k;
    assert body[2 * i .. 2 * i + 2] == unit by {
      assert body[2 * i] == unit[0] && body[2 * i + 1] == unit[1];
    }
    assert !ZeroUnitAt(data, from, i);
    WideZero(data[from + 2 * i .. from + 2 * i + 2]);
  }

  /** No unit of the wide string is zero. */
  lemma WideStringNoZero(data: seq<byte>, from: nat)
    requires HasZeroUnitFrom(data, from)
    ensures 0 !in WideString(data, from)
  {
    var s := WideString(data, from);
    forall i | 0 <= i < |s| ensures s[i] != 0 {
      WideStringAt(data, from, i);
    }
  }

  /** Reading a wide string that began at `start` has consumed its first
      `units` units, which are `s`. */
  ghost predicate WideProgress(data: seq<byte>, start: nat, units: nat, s: seq<uint16>) {
    && HasZeroUnitFrom(data, start)
    && units <= FirstZeroUnit(data, start)
    && start + 2 * units + 2 <= |data|
    && s == WideString(data, start)[..units]
  }

  lemma WideProgressStart(data: seq<byte>, start: nat)
    requires HasZeroUnitFrom(data, start)
    ensures WideProgress(data, start, 0, [])
  {
  }

  /** A non-zero unit before the first zero unit extends the string by its value. */
  lemma WideProgressStep(data: seq<byte>, start: nat, units: nat, s: seq<uint16>)
    requires WideProgress(data, start, units, s)
    requires DecodeLE(data[start + 2 * units .. start + 2 * units + 2]) != 0
    ensures units < FirstZeroUnit(data, start)
    ensures WideProgress(data, start, units + 1, s + [DecodeLE(data[start + 2 * units .. start + 2 * units + 2])])
  {
    var p := start + 2 * units;
    WideZero(data[p .. p + 2]);
    assert !ZeroUnitAt(data, start, units);
    WideStringAt(data, start, units);
    var w := WideString(data, start);
    assert w[..units] + [w[units]] == w[..units + 1];
  }

  /** A zero unit reached without passing the first one is the first one,
      and then the whole wide string has been read. */
  lemma WideProgressEnd(data: seq<byte>, start: nat, units: nat, s: seq<uint16>)
    requires WideProgress(data, start, units, s)
    requires DecodeLE(data[start + 2 * units .. start + 2 * units + 2]) == 0
    ensures units == FirstZeroUnit(data, start)
    ensures s == WideString(data, start) && 0 !in s
  {
    var p := start + 2 * units;
    WideZero(data[p .. p + 2]);
    assert ZeroUnitAt(data, start, units);
    WideStringNoZero(data, start);
  }

  /** Where the scan over NUL padding stops: the first non-NUL byte at or
      after `q`, or `q` itself once the budget `end` is used up. */
  function SkipPadding(data: seq<byte>, q: nat, end: nat): (r: nat)
    requires end <= |data|
    ensures q <= r
    ensures q >= end ==> r == q
    ensures q < end ==> r <= end
    ensures forall j :: q <= j < r ==> data[j] == 0
    ensures r < end ==> data[r] != 0
    decreases end - q
  {
    if q >= end || data[q] != 0 then q else SkipPadding(data, q + 1, end)
  }

  lemma SkipPaddingUnique(data: seq<byte>, q: nat, end: nat, r: nat)
    requires end <= |data| && q <= r && (q < end ==> r <= end) && (q >= end ==> r == q)
    requires forall j :: q <= j < r ==> data[j] == 0
    requires r < end ==> data[r] != 0
    ensures SkipPadding(data, q, end) == r
  {
  }

  /** A sized string list at `p` with byte budget `end`: a NUL-terminated
      string, then the NUL padding, then (while the budget is not used up)
      the next string. Returns the strings and the position after the last
      terminator and its padding. */
  function ParseStringList(data: seq<byte>, p: nat, end: nat): (r: (seq<seq<byte>>, nat))
    requires p < end && HasByteFrom(data, end - 1, 0)
    ensures |r.0| >= 1 && r.1 >= end
    decreases end - p
  {
    HasByteFromEarlier(data, end - 1, p, 0);
    var k := IndexFrom(data, p, 0);
    var q := SkipPadding(data, k + 1, end);
    if q < end then
      var rest := ParseStringList(data, q, end);
      ([data[p..k]] + rest.0, rest.1)
    else
      ([data[p..k]], q)
  }

  /** What a sized string list read promises: at least one string; the
      budget used up (exactly, when its last byte is a NUL); the first string
      empty only when the list starts with a NUL; no string holding a NUL; and
      no empty string after the first, because NUL padding is skipped. */
  lemma {:induction false} ParseStringListShape(data: seq<byte>, p: nat, end: nat)
    requires p < end && HasByteFrom(data, end - 1, 0)
    ensures var r := ParseStringList(data, p, end);
      && |r.0| >= 1
      && r.1 >= end
      && (data[end - 1] == 0 ==> r.1 == end)
      && (r.0[0] == [] <==> data[p] == 0)
      && (forall i :: 0 <= i < |r.0| ==> 0 !in r.0[i])
      && (forall i :: 1 <= i < |r.0| ==> r.0[i] != [])
    decreases end - p
  {
    HasByteFromEarlier(data, end - 1, p, 0);
    var k := IndexFrom(data, p, 0);
    var q := SkipPadding(data, k + 1, end);
    assert 0 !in data[p..k];
    ParseStep(data, p, end, k, q);
    if q < end {
      ParseStringListShape(data, q, end);
    }
  }

  /** One step of the parse: the first string, then the rest of the list
      from where its padding ends. */
  lemma ParseStep(data: seq<byte>, p: nat, end: nat, k: nat, q: nat)
    requires p < end && HasByteFrom(data, end - 1, 0) && HasByteFrom(data, p, 0)
    requires end <= |data| && k == IndexFrom(data, p, 0) && q == SkipPadding(data, k + 1, end)
    ensures q < end ==>
              ParseStringList(data, p, end)
              == ([data[p..k]] + ParseStringList(data, q, end).0, ParseStringList(data, q, end).1)
    ensures q >= end ==> ParseStringList(data, p, end) == ([data[p..k]], q)
  {
  }

  /** A list whose first string is `first` and whose rest parses to `rest`
      parses to `first` followed by `rest`. */
  lemma ParseCons(data: seq<byte>, p: nat, end: nat, k: nat, q: nat, first: seq<byte>, rest: seq<seq<byte>>)
    requires p < end <= |data| && HasByteFrom(data, end - 1, 0) && HasByteFrom(data, p, 0)
    requires k == IndexFrom(data, p, 0) && data[p..k] == first && q == SkipPadding(data, k + 1, end)
    requires q < end && ParseStringList(data, q, end) == (rest, end)
    ensures ParseStringList(data, p, end) == ([first] + rest, end)
  {
    ParseStep(data, p, end, k, q);
  }

  /** A list whose first string's padding uses up the budget holds that string alone. */
  lemma ParseLast(data: seq<byte>, p: nat, end: nat, k: nat, q: nat, first: seq<byte>)
    requires p < end <= |data| && HasByteFrom(data, end - 1, 0) && HasByteFrom(data, p, 0)
    requires k == IndexFrom(data, p, 0) && data[p..k] == first && q == SkipPadding(data, k + 1, end)
    requires q == end
    ensures ParseStringList(data, p, end) == ([first], end)
  {
    ParseStep(data, p, end, k, q);
  }

  /** Reading a sized string list that began at `start` has reached `pos`
      with `list` read so far: what is left to parse from `pos` completes it. */
  ghost predicate ListProgress(data: seq<byte>, start: nat, end: nat, pos: nat, list: seq<seq<byte>>) {
    && start < end <= |data| && HasByteFrom(data, end - 1, 0) && start <= pos
    && (pos < end ==> && list + ParseStringList(data, pos, end).0 == ParseStringList(data, start, end).0
                      && ParseStringList(data, pos, end).1 == ParseStringList(data, start, end).1)
    && (pos >= end ==> (list, pos) == ParseStringList(data, start, end))
  }

  lemma ListProgressStart(data: seq<byte>, start: nat, end: nat)
    requires start < end <= |data| && HasByteFrom(data, end - 1, 0)
    ensures ListProgress(data, start, end, start, [])
  {
  }

  /** Reading one more string and its padding keeps the list in progress. */
  lemma ListProgressStep(data: seq<byte>, start: nat, end: nat, p: nat, list: seq<seq<byte>>, k: nat, q: nat)
    requires ListProgress(data, start, end, p, list) && p < end
    requires HasByteFrom(data, p, 0) && k == IndexFrom(data, p, 0) && q == SkipPadding(data, k + 1, end)
    ensures ListProgress(data, start, end, q, list + [data[p..k]])
  {
    ParseStep(data, p, end, k, q);
    if q < end {
      assert list + ([data[p..k]] + ParseStringList(data, q, end).0)
          == (list + [data[p..k]]) + ParseStringList(data, q, end).0;
    }
  }

  /** No string contains a NUL, and every string but the first is non-empty:
      the strings that a sized string list can hold. */
  predicate Packable(strings: seq<seq<byte>>) {
    && (forall i :: 0 <= i < |strings| ==> 0 !in strings[i])
    && (forall i :: 1 <= i < |strings| ==> strings[i] != [])
  }

  /** The layout a producer writes: each string, its NUL terminator, then
      `pads[i]` bytes of zero padding. */
  function Pack(strings: seq<seq<byte>>, pads: seq<nat>): (r: seq<byte>)
    requires |pads| == |strings|
    ensures strings != [] ==> |r| > |strings[0]|
  {
    if strings == [] then []
    else strings[0] + [0] + Zeros(pads[0]) + Pack(strings[1..], pads[1..])
  }

  lemma {:induction false} PackSnoc(strings: seq<seq<byte>>, pads: seq<nat>, s: seq<byte>, pad: nat)
    requires |pads| == |strings|
    ensures Pack(strings + [s], pads + [pad]) == Pack(strings, pads) + (s + [0] + Zeros(pad))
    decreases |strings|
  {
    var tail := s + [0] + Zeros(pad);
    if strings == [] {
      assert strings + [s] == [s];
      assert Pack([s], [pad]) == tail + Pack([], []);
    } else {
      var head := strings[0] + [0] + Zeros(pads[0]);
      assert (strings + [s])[1..] == strings[1..] + [s];
      assert (pads + [pad])[1..] == pads[1..] + [pad];
      PackSnoc(strings[1..], pads[1..], s, pad);
      calc {
        Pack(strings + [s], pads + [pad]);
        head + Pack(strings[1..] + [s], pads[1..] + [pad]);
        head + (Pack(strings[1..], pads[1..]) + tail);
        (head + Pack(strings[1..], pads[1..])) + tail;
      }
    }
  }

  /** `data` holds from `p` on, entry by entry, each string, its NUL
      terminator and `pads[i]` zero bytes. */
  predicate PackedAt(data: seq<byte>, p: nat, strings: seq<seq<byte>>, pads: seq<nat>)
    decreases |strings|
  {
    && |pads| == |strings| >= 1
    && p + |strings[0]| + 1 + pads[0] <= |data|
    && data[p .. p + |strings[0]|] == strings[0]
    && data[p + |strings[0]|] == 0
    && (forall j :: p + |strings[0]| < j < p + |strings[0]| + 1 + pads[0] ==> data[j] == 0)
    && (|strings| > 1 ==> PackedAt(data, p + |strings[0]| + 1 + pads[0], strings[1..], pads[1..]))
  }

  /** Where the packed entries from `p` end. */
  function PackedEnd(p: nat, strings: seq<seq<byte>>, pads: seq<nat>): (r: nat)
    requires |pads| == |strings| >= 1
    ensures r >= p + |strings[0]| + 1 + pads[0]
    decreases |strings|
  {
    var q := p + |strings[0]| + 1 + pads[0];
    if |strings| == 1 then q else PackedEnd(q, strings[1..], pads[1..])
  }

  /** The last byte of packed entries is a NUL: a terminator or padding. */
  lemma {:induction false} PackedEndNul(data: seq<byte>, p: nat, strings: seq<seq<byte>>, pads: seq<nat>)
    requires PackedAt(data, p, strings, pads)
    ensures PackedEnd(p, strings, pads) <= |data|
    ensures data[PackedEnd(p, strings, pads) - 1] == 0
    decreases |strings|
  {
    var q := p + |strings[0]| + 1 + pads[0];
    if |strings| > 1 {
      PackedEndNul(data, q, strings[1..], pads[1..]);
    } else if pads[0] > 0 {
      assert p + |strings[0]| < q - 1;
    }
  }

  /** The first entry's terminator is the first NUL from `p`. */
  lemma PackedTerminator(data: seq<byte>, p: nat, strings: seq<seq<byte>>, pads: seq<nat>)
    requires PackedAt(data, p, strings, pads) && Packable(strings)
    ensures HasByteFrom(data, p, 0) && IndexFrom(data, p, 0) == p + |strings[0]|
    ensures data[p .. p + |strings[0]|] == strings[0]
  {
    var k := p + |strings[0]|;
    forall j | p <= j < k ensures data[j] != 0 {
      assert data[j] == data[p .. k][j - p];
    }
    IndexFromUnique(data, p, 0, k);
  }

  /** The padding after the first entry ends where the next entry begins,
      or at the end of the entries. */
  lemma PackedPadding(data: seq<byte>, p: nat, strings: seq<seq<byte>>, pads: seq<nat>)
    requires PackedAt(data, p, strings, pads) && Packable(strings)
    ensures PackedEnd(p, strings, pads) <= |data|
    ensures SkipPadding(data, p + |strings[0]| + 1, PackedEnd(p, strings, pads)) == p + |strings[0]| + 1 + pads[0]
  {
    var k := p + |strings[0]|;
    var q := k + 1 + pads[0];
    var end := PackedEnd(p, strings, pads);
    PackedEndNul(data, p, strings, pads);
    if |strings| > 1 {
      assert PackedAt(data, q, strings[1..], pads[1..]);
      var s1 := strings[1];
      assert s1 != [] && 0 !in s1;
      assert data[q] == data[q .. q + |s1|][0] == s1[0];
    }
    SkipPaddingUnique(data, k + 1, end, q);
  }

  /** Parsing packed entries of packable strings, with their extent as the
      budget, gives back the strings and consumes the entries exactly. */
  lemma {:induction false} ParsePack(data: seq<byte>, p: nat, strings: seq<seq<byte>>, pads: seq<nat>)
    requires PackedAt(data, p, strings, pads) && Packable(strings)
    ensures PackedEnd(p, strings, pads) <= |data|
    ensures HasByteFrom(data, PackedEnd(p, strings, pads) - 1, 0)
    ensures ParseStringList(data, p, PackedEnd(p, strings, pads)) == (strings, PackedEnd(p, strings, pads))
    decreases |strings|
  {
    var end := PackedEnd(p, strings, pads);
    var k := p + |strings[0]|;
    var q := k + 1 + pads[0];
    PackedEndNul(data, p, strings, pads);
    PackedTerminator(data, p, strings, pads);
    PackedPadding(data, p, strings, pads);
    if |strings| > 1 {
      assert Packable(strings[1..]);
      assert PackedEnd(q, strings[1..], pads[1..]) == end;
      ParsePack(data, q, strings[1..], pads[1..]);
      ParseCons(data, p, end, k, q, strings[0], strings[1..]);
      HeadTail(strings);
    } else {
      ParseLast(data, p, end, k, q, strings[0]);
      assert [strings[0]] == strings;
    }
  }

  lemma HeadTail(strings: seq<seq<byte>>)
    requires |strings| >= 1
    ensures [strings[0]] + strings[1..] == strings
  {
  }

  lemma AppendAssoc(a: seq<byte>, b: seq<byte>, c: seq<byte>)
    ensures (a + b) + c == a + (b + c)
  {
  }

  /** The bytes that `Pack` lays out after any prefix hold the packed
      entries, and they end with the layout. */
  lemma {:induction false} PackIsPacked(prefix: seq<byte>, strings: seq<seq<byte>>, pads: seq<nat>)
    requires |pads| == |strings| >= 1
    ensures PackedAt(prefix + Pack(strings, pads), |prefix|, strings, pads)
    ensures PackedEnd(|prefix|, strings, pads) == |prefix + Pack(strings, pads)|
    decreases |strings|
  {
    var s0 := strings[0];
    var entry := s0 + [0] + Zeros(pads[0]);
    var rest := Pack(strings[1..], pads[1..]);
    var data := prefix + Pack(strings, pads);
    var p := |prefix|;
    assert Pack(strings, pads) == entry + rest;
    AppendAssoc(prefix, entry, rest);
    assert data[p .. p + |s0|] == s0 by {
      assert data[p .. p + |s0|] == (prefix + entry)[p .. p + |s0|];
    }
    assert data[p + |s0|] == 0 by {
      assert data[p + |s0|] == (prefix + entry)[p + |s0|];
    }
    forall j | p + |s0| < j < p + |s0| + 1 + pads[0] ensures data[j] == 0 {
      assert data[j] == (prefix + entry)[j] == Zeros(pads[0])[j - p - |s0| - 1];
    }
    if |strings| > 1 {
      PackIsPacked(prefix + entry, strings[1..], pads[1..]);
    } else {
      assert rest == [];
    }
  }

  /** Parsing the packed layout of a non-empty packable list, with its whole
      length as the budget, gives back the strings and uses up the layout. */
  lemma ParsePacked(strings: seq<seq<byte>>, pads: seq<nat>)
    requires |pads| == |strings| >= 1 && Packable(strings)
    ensures var data := Pack(strings, pads);
      && |data| >= 1
      && HasByteFrom(data, |data| - 1, 0)
      && ParseStringList(data, 0, |data|) == (strings, |data|)
  {
    PackIsPacked([], strings, pads);
    assert [] + Pack(strings, pads) == Pack(strings, pads);
    ParsePack(Pack(strings, pads), 0, strings, pads);
  }
}
