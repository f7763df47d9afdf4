/**
 Floating-point patterns as numbers: which of them are NaN and which are zero, as IEEE 754 has it for the formats
 binary32 and binary64.
 */
module FloatPatterns {
  import opened Bytes
  import opened WireBytes
  import opened Agreement

  /** A pattern without its sign bit. */
  function Magnitude(b: bytes): nat
    requires |b| == 4 || |b| == 8
  {
    Spelled(b) % if |b| == 4 then 0x8000_0000 else 0x8000_0000_0000_0000
  }

  lemma TopByte(b: bytes, low: nat)
    requires |b| == 4 || |b| == 8
    requires low == Spelled(b) - (if |b| == 4 then 0x100_0000 * At(b, 3) else 0x100_0000_0000_0000 * At(b, 7))
    ensures Magnitude(b) == low + (if |b| == 4 then 0x100_0000 else 0x100_0000_0000_0000) * (b[|b| - 1] as int % 128)
  {
    var top := b[|b| - 1] as int;
    assert top == top % 128 + 128 * (top / 128);
  }

  /** Greater than infinity: exponent all ones and a mantissa that is not zero. */
  lemma NaNExactly(b: bytes)
    requires |b| == 4 || |b| == 8
    ensures IsNaN(b) <==> Magnitude(b) > if |b| == 4 then 0x7F80_0000 else 0x7FF0_0000_0000_0000
  {
    if |b| == 4 {
      TopByte(b, b[0] as int + 0x100 * (b[1] as int) + 0x1_0000 * (b[2] as int));
    } else {
      LongNaN(b);
    }
  }

  lemma LongNaN(b: bytes)
    requires |b| == 8
    ensures IsNaN(b) <==> Magnitude(b) > 0x7FF0_0000_0000_0000
  {
    var low := At(b, 0) + 0x100 * At(b, 1) + 0x1_0000 * At(b, 2) + 0x100_0000 * At(b, 3) + 0x1_0000_0000 * At(b, 4)
               + 0x100_0000_0000 * At(b, 5);
    TopByte(b, low + 0x1_0000_0000_0000 * At(b, 6));
    assert low == 0 <==> forall k :: 0 <= k < 6 ==> b[k] == 0;
  }

  /** Zero of either sign. */
  lemma ZeroExactly(b: bytes)
    requires |b| == 4 || |b| == 8
    ensures IsZero(b) <==> Magnitude(b) == 0
  {
    if |b| == 4 {
      TopByte(b, b[0] as int + 0x100 * (b[1] as int) + 0x1_0000 * (b[2] as int));
    } else {
      var low := At(b, 0) + 0x100 * At(b, 1) + 0x1_0000 * At(b, 2) + 0x100_0000 * At(b, 3) + 0x1_0000_0000 * At(b, 4)
                 + 0x100_0000_0000 * At(b, 5);
      TopByte(b, low + 0x1_0000_0000_0000 * At(b, 6));
      assert low == 0 <==> forall k :: 0 <= k < 6 ==> b[k] == 0;
    }
  }
}
