/** The remainder arithmetic shared by every `Align` of the reader, the
    writer and the legacy reader. */
module Alignment {

  /** Padding needed to move `position` up to the next multiple of
      `alignmentValue` (the writer's static `CalcAlign`). An alignment of 0
      divides by zero in the C++ code, so it is excluded. */
  function CalcAlign(position: nat, alignmentValue: nat := 2048): (r: nat)
    requires alignmentValue >= 1
    ensures r < alignmentValue
    ensures (position + r) % alignmentValue == 0
    ensures r == 0 <==> position % alignmentValue == 0
  {
    var remainder := position % alignmentValue;
    var paddingSize := if remainder > 0 then alignmentValue - remainder else 0;
    assert (position + paddingSize) % alignmentValue == 0 by {
      MultipleOf(position, alignmentValue, remainder, paddingSize);
    }
    paddingSize
  }

  lemma MultipleOf(position: nat, a: nat, remainder: nat, paddingSize: nat)
    requires a >= 1 && remainder == position % a
    requires paddingSize == if remainder > 0 then a - remainder else 0
    ensures (position + paddingSize) % a == 0
  {
    var q := position / a;
    assert position == q * a + remainder;
    if remainder > 0 {
      assert position + paddingSize == (q + 1) * a by {
        assert (q + 1) * a == q * a + a;
      }
      ModUnique(position + paddingSize, a, q + 1, 0);
    } else {
      ModUnique(position + paddingSize, a, q, 0);
    }
  }

  /** Division with remainder has only one result. */
  lemma ModUnique(x: int, a: int, q: int, r: int)
    requires a > 0 && 0 <= r < a && x == q * a + r
    ensures x % a == r
  {
    var q' := x / a;
    var r' := x % a;
    assert x == q' * a + r';
    assert (q - q') * a == r' - r by {
      assert q * a - q' * a == (q - q') * a;
    }
    if q - q' >= 1 {
      MulAtLeast(q - q', a);
    } else if q' - q >= 1 {
      MulAtLeast(q' - q, a);
    }
  }

  lemma MulAtLeast(d: int, a: int)
    requires d >= 1 && a > 0
    ensures d * a >= a
  {
    assert d * a == a + (d - 1) * a;
  }

  /** The padding is the least amount that aligns the position, so no
      smaller skip reaches a multiple of the alignment. */
  lemma CalcAlignIsLeast(position: nat, alignmentValue: nat, k: nat)
    requires alignmentValue >= 1
    requires (position + k) % alignmentValue == 0
    ensures CalcAlign(position, alignmentValue) <= k
  {
    var a := alignmentValue;
    var r := CalcAlign(position, a);
    if k < r {
      var q1 := (position + r) / a;
      var q2 := (position + k) / a;
      assert position + r == q1 * a;
      assert position + k == q2 * a;
      assert (q1 - q2) * a == r - k by {
        assert q1 * a - q2 * a == (q1 - q2) * a;
      }
      if q1 - q2 >= 1 {
        MulAtLeast(q1 - q2, a);
      } else {
        assert (q2 - q1) * a == k - r by {
          assert (q2 - q1) * a == -((q1 - q2) * a);
        }
        assert q2 - q1 >= 0;
        MulNonNeg(q2 - q1, a);
      }
      assert false;
    }
  }

  lemma MulNonNeg(d: int, a: int)
    requires d >= 0 && a > 0
    ensures d * a >= 0
  {
  }

  /** Aligning an already aligned position adds nothing: alignment is idempotent. */
  lemma CalcAlignIdempotent(position: nat, alignmentValue: nat)
    requires alignmentValue >= 1
    ensures CalcAlign(position + CalcAlign(position, alignmentValue), alignmentValue) == 0
  {
  }
}
