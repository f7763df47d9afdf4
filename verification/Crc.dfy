/**
 The X.25 checksum of pymavlink/generator/mavcrc.py and its masked copy in pymavlink/mavutil.py.

 Facts about bits are stated first on plain bit-vector expressions (the Raw lemmas), where the solver
 decides them outright, and only then about the named functions.
 */
module Crc {
  import opened Bytes

  const INIT: bv16 := 0xffff

  /** A byte as bits, nibble by nibble. */
  function Bits(b: byte): bv16 {
    (((b / 16) as bv4 as bv16) << 4) | ((b % 16) as bv4 as bv16)
  }

  /** The last two lines of the loop: tmp spread over the register's high byte. */
  function Spread(high: bv16, tmp: bv16): bv16 {
    var tmp := (tmp ^ (tmp << 4)) & 0xff;
    high ^ (tmp << 8) ^ (tmp << 3) ^ (tmp >> 4)
  }

  /** What one byte does to the register, as a function of register xor byte. */
  function Fold(r: bv16): bv16 {
    Spread(r >> 8, r & 0xff)
  }

  function Step(accum: bv16, b: bv16): bv16 {
    Fold(accum ^ b)
  }

  /** The register after a whole buffer. */
  function Accumulate(accum: bv16, buf: bytes): bv16
    decreases |buf|
  {
    if buf == [] then accum else Accumulate(Step(accum, Bits(buf[0])), buf[1..])
  }

  /** The checksum of a buffer as the integer the codec compares and packs. */
  function Checksum(buf: bytes): (c: nat)
    ensures c < 0x1_0000
  {
    Accumulate(INIT, buf) as int
  }

  lemma BitsBounded(b: byte)
    ensures Bits(b) < 0x100
  {
  }

  /** Feeding a buffer in two parts is feeding the whole. */
  lemma {:induction false} Chains(accum: bv16, a: bytes, b: bytes)
    ensures Accumulate(accum, a + b) == Accumulate(Accumulate(accum, a), b)
    decreases |a|
  {
    if a == [] {
      assert a + b == b;
    } else {
      assert (a + b)[1..] == a[1..] + b;
      Chains(Step(accum, Bits(a[0])), a[1..], b);
    }
  }

  /** The two halves of a register folded into one byte. */
  function FoldHalves(r: bv16): byte {
    ((r & 0xff) ^ (r >> 8)) as bv8 as int
  }

  // ----- The class and its loop

  /**
   The body of the accumulate loop as written. Python integers do not wrap; 32 bits are wide enough to see
   whether the loop, which has no mask, would outgrow 16.
   */
  function LoopBody(accum: bv32, b: bv32): bv32 {
    var tmp := b ^ (accum & 0xff);
    SpreadWide(accum >> 8, tmp)
  }

  function SpreadWide(high: bv32, tmp: bv32): bv32 {
    var tmp := (tmp ^ (tmp << 4)) & 0xff;
    high ^ (tmp << 8) ^ (tmp << 3) ^ (tmp >> 4)
  }

  function Widen(r: bv16): bv32 { r as bv32 }

  function Mask(r: bv32): bv32 { r & 0xffff }

  function Turn(a: bv16, b: bv16): bv32 {
    LoopBody(Widen(a), Widen(b))
  }

  lemma RawLow(accum: bv16, b: bv16)
    requires b < 0x100
    ensures (b as bv32) ^ ((accum as bv32) & 0xff) == ((accum ^ b) & 0xff) as bv32
  {
  }

  lemma RawHigh(accum: bv16, b: bv16)
    requires b < 0x100
    ensures (accum as bv32) >> 8 == ((accum ^ b) >> 8) as bv32
  {
  }

  /** The loop body looks at accum and b only through the two halves of accum xor b. */
  lemma LoopBodyIsSpread(accum: bv16, b: bv16, high: bv32, low: bv32)
    requires b < 0x100 && high == ((accum ^ b) >> 8) as bv32 && low == ((accum ^ b) & 0xff) as bv32
    ensures LoopBody(accum as bv32, b as bv32) == SpreadWide(high, low)
  {
    RawLow(accum, b);
    RawHigh(accum, b);
  }

  /** What it does with them fits 16 bits. */
  lemma RawSpread(r: bv16)
    ensures SpreadWide((r >> 8) as bv32, (r & 0xff) as bv32) == Fold(r) as bv32
  {
  }

  lemma LoopBodyIsFold(accum: bv16, b: bv16, r: bv16)
    requires b < 0x100 && r == accum ^ b
    ensures LoopBody(accum as bv32, b as bv32) == Fold(r) as bv32
  {
    LoopBodyIsSpread(accum, b, (r >> 8) as bv32, (r & 0xff) as bv32);
    RawSpread(r);
  }

  lemma TurnIsFold(accum: bv16, b: bv16)
    requires b < 0x100
    ensures Turn(accum, b) == Widen(Fold(accum ^ b))
  {
    LoopBodyIsFold(accum, b, accum ^ b);
  }

  lemma MaskIsIdle(r: bv16)
    ensures Mask(Widen(r)) == Widen(r)
  {
  }

  lemma TurnIsStep(accum: bv16, b: bv16)
    requires b < 0x100
    ensures Turn(accum, b) == Widen(Step(accum, b))
  {
    TurnIsFold(accum, b);
  }

  /** The loop without a mask never leaves 16 bits, so masking after every byte changes nothing. */
  lemma NoMaskNeeded(accum: bv16, b: bv16)
    requires b < 0x100
    ensures Turn(accum, b) == Widen(Step(accum, b))
    ensures Mask(Widen(Step(accum, b))) == Widen(Step(accum, b))
  {
    TurnIsStep(accum, b);
    MaskIsIdle(Step(accum, b));
  }

  /** The two halves of the object's register folded into one byte. */
  function FoldWide(r: bv32): byte {
    ((r & 0xff) ^ ((r >> 8) & 0xff)) as bv8 as int
  }

  lemma FoldWideIsFold(r: bv16)
    ensures FoldWide(Widen(r)) == FoldHalves(r)
  {
  }

  function Narrow(r: bv32): bv16 { (r & 0xffff) as bv16 }

  lemma NarrowUndoesWiden(r: bv16)
    ensures Narrow(Widen(r)) == r
  {
  }

  class X25Crc {
    var crc: bv32

    constructor (buf: bytes)
      ensures crc == Widen(Accumulate(INIT, buf))
    {
      crc := 0xffff;
      new;
      Add(INIT, buf);
    }

    /** accumulate of mavcrc.py: no mask. */
    method Add(ghost start: bv16, buf: bytes)
      requires crc == Widen(start)
      modifies this
      ensures crc == Widen(Accumulate(start, buf))
    {
      var accum := crc;
      ghost var reg := start;
      for i := 0 to |buf|
        invariant accum == Widen(reg)
        invariant Accumulate(reg, buf[i..]) == Accumulate(start, buf)
      {
        BitsBounded(buf[i]);
        NoMaskNeeded(reg, Bits(buf[i]));
        assert buf[i..][1..] == buf[i + 1..];
        accum := LoopBody(accum, Widen(Bits(buf[i])));
        reg := Step(reg, Bits(buf[i]));
      }
      crc := accum;
    }

    /** The register as the integer that is compared and packed. */
    method Value(ghost r: bv16) returns (c: nat)
      requires crc == Widen(r)
      ensures c == r as int
    {
      NarrowUndoesWiden(r);
      c := Narrow(crc) as int;
    }

    /** accumulate of mavutil.py: masks the register after every byte. */
    method AddMasked(ghost start: bv16, buf: bytes)
      requires crc == Widen(start)
      modifies this
      ensures crc == Widen(Accumulate(start, buf))
    {
      var accum := crc;
      ghost var reg := start;
      for i := 0 to |buf|
        invariant accum == Widen(reg)
        invariant Accumulate(reg, buf[i..]) == Accumulate(start, buf)
      {
        BitsBounded(buf[i]);
        NoMaskNeeded(reg, Bits(buf[i]));
        assert buf[i..][1..] == buf[i + 1..];
        accum := LoopBody(accum, Widen(Bits(buf[i])));
        accum := Mask(accum);
        reg := Step(reg, Bits(buf[i]));
      }
      crc := accum;
    }
  }

  // ----- The standard's register

  /** One clock of the reflected register of Appendix C.2 of RFC 1662 (polynomial 0x8408). */
  function Shift(r: bv16): bv16 {
    if r & 1 == 1 then (r >> 1) ^ 0x8408 else r >> 1
  }

  /** One clock as a sum of shifted bits: the bit shifted out comes back at the places of the polynomial. */
  function Clock(r: bv16): bv16 {
    (r >> 1) ^ ((r & 1) << 15) ^ ((r & 1) << 10) ^ ((r & 1) << 3)
  }

  lemma ShiftIsClock(r: bv16)
    ensures Shift(r) == Clock(r)
  {
    if r & 1 != 1 {
      assert r & 1 == 0;
    }
  }

  /** Four clocks at once. */
  function FourClocks(r: bv16): bv16 {
    (r >> 4) ^ ((r & 0xf) << 12) ^ ((r & 0xf) << 7) ^ (r & 0xf)
  }

  lemma RawFourClocks(r: bv16)
    ensures Clock(Clock(Clock(Clock(r)))) == FourClocks(r)
  {
  }

  lemma FourShifts(r: bv16)
    ensures Shift(Shift(Shift(Shift(r)))) == FourClocks(r)
  {
    ShiftIsClock(r);
    ShiftIsClock(Clock(r));
    ShiftIsClock(Clock(Clock(r)));
    ShiftIsClock(Clock(Clock(Clock(r))));
    RawFourClocks(r);
  }

  lemma RawFold(r: bv16)
    ensures FourClocks(FourClocks(r)) == Fold(r)
  {
  }

  lemma FoldIsEightShifts(r: bv16)
    ensures Fold(r) == Shift(Shift(Shift(Shift(Shift(Shift(Shift(Shift(r))))))))
  {
    FourShifts(r);
    FourShifts(FourClocks(r));
    RawFold(r);
  }

  /** One byte of the table-free loop is eight clocks of the standard's register, byte folded in first. */
  lemma StepIsEightShifts(accum: bv16, b: bv16)
    ensures Step(accum, b) == Shift(Shift(Shift(Shift(Shift(Shift(Shift(Shift(accum ^ b))))))))
  {
    FoldIsEightShifts(accum ^ b);
  }

  // ----- What the checksum detects

  lemma FoldIsInjective(r: bv16, s: bv16)
    requires Fold(r) == Fold(s)
    ensures r == s
  {
  }

  lemma RawCancel(a: bv16, b: bv16, c: bv16)
    ensures a ^ b == c ^ b ==> a == c
    ensures b ^ a == b ^ c ==> a == c
  {
  }

  /** The same byte never merges two different registers. */
  lemma StepKeepsApart(a: bv16, c: bv16, b: bv16)
    requires Step(a, b) == Step(c, b)
    ensures a == c
  {
    FoldIsInjective(a ^ b, c ^ b);
    RawCancel(a, b, c);
  }

  lemma StepDetects(a: bv16, b: bv16, c: bv16)
    requires Step(a, b) == Step(a, c)
    ensures b == c
  {
    FoldIsInjective(a ^ b, a ^ c);
    RawCancel(b, a, c);
  }

  lemma RawEqualHigh(a: bv16, c: bv16, b: bv16, e: bv16)
    requires c < 0x100 && e < 0x100
    ensures a ^ c == b ^ e ==> a >> 8 == b >> 8
  {
  }

  lemma RawSameHigh(a: bv16, b: bv16, d: bv16)
    requires b < 0x100 && d < 0x100
    ensures (a ^ b) >> 8 == (a ^ d) >> 8
  {
  }

  lemma FoldSpreadsLow(r: bv16, s: bv16)
    requires r >> 8 == s >> 8 && Fold(r) >> 8 == Fold(s) >> 8
    ensures r == s
  {
  }

  lemma FirstOfTwo(r: bv16, s: bv16, c: bv16, e: bv16)
    requires c < 0x100 && e < 0x100 && r >> 8 == s >> 8
    requires Step(Fold(r), c) == Step(Fold(s), e)
    ensures r == s
  {
    FoldIsInjective(Fold(r) ^ c, Fold(s) ^ e);
    RawEqualHigh(Fold(r), c, Fold(s), e);
    FoldSpreadsLow(r, s);
  }

  /** Two adjacent bytes carry as many bits as the register, and none of them is lost. */
  lemma TwoStepsDetect(a: bv16, b: bv16, c: bv16, d: bv16, e: bv16)
    requires b < 0x100 && c < 0x100 && d < 0x100 && e < 0x100
    requires Step(Step(a, b), c) == Step(Step(a, d), e)
    ensures b == d && c == e
  {
    RawSameHigh(a, b, d);
    FirstOfTwo(a ^ b, a ^ d, c, e);
    RawCancel(b, a, d);
    StepDetects(Step(a, b), c, e);
  }

  lemma RawNibbles(h: bv4, l: bv4, i: bv4, m: bv4)
    requires ((h as bv16) << 4) | (l as bv16) == ((i as bv16) << 4) | (m as bv16)
    ensures h == i && l == m
  {
  }

  lemma NibbleBits(n: int)
    requires 0 <= n < 16
    ensures (n as bv4) as int == n
  {
  }

  lemma NibbleInjective(n: int, m: int)
    requires 0 <= n < 16 && 0 <= m < 16
    requires n as bv4 == m as bv4
    ensures n == m
  {
    NibbleBits(n);
    NibbleBits(m);
  }

  lemma BitsInjective(b: byte, c: byte)
    requires Bits(b) == Bits(c)
    ensures b == c
  {
    RawNibbles((b / 16) as bv4, (b % 16) as bv4, (c / 16) as bv4, (c % 16) as bv4);
    NibbleInjective(b / 16, c / 16);
    NibbleInjective(b % 16, c % 16);
  }

  lemma RegisterInjective(r: bv16, s: bv16)
    requires r as int == s as int
    ensures r == s
  {
    assert (r as int) as bv16 == r;
  }

  /** No suffix brings two different registers back together. */
  lemma {:induction false} SuffixKeepsApart(a: bv16, c: bv16, s: bytes)
    requires Accumulate(a, s) == Accumulate(c, s)
    ensures a == c
    decreases |s|
  {
    if s != [] {
      SuffixKeepsApart(Step(a, Bits(s[0])), Step(c, Bits(s[0])), s[1..]);
      StepKeepsApart(a, c, Bits(s[0]));
    }
  }

  lemma AccumulateAt(accum: bv16, m: bytes, k: nat)
    requires k < |m|
    ensures Accumulate(accum, m) == Accumulate(Step(Accumulate(accum, m[..k]), Bits(m[k])), m[k + 1..])
  {
    assert m == m[..k] + m[k..];
    Chains(accum, m[..k], m[k..]);
    assert m[k..][1..] == m[k + 1..];
  }

  /**
   Damage confined to two adjacent bytes never goes unnoticed: two messages of one length that agree
   everywhere outside positions k and k + 1 and have the same checksum are the same message.
   */
  lemma AdjacentDamageIsDetected(m: bytes, n: bytes, k: nat)
    requires |m| == |n| && k < |m|
    requires forall i :: 0 <= i < |m| && i != k && i != k + 1 ==> m[i] == n[i]
    requires Checksum(m) == Checksum(n)
    ensures m == n
  {
    RegisterInjective(Accumulate(INIT, m), Accumulate(INIT, n));
    var a := Accumulate(INIT, m[..k]);
    assert m[..k] == n[..k];
    AccumulateAt(INIT, m, k);
    AccumulateAt(INIT, n, k);
    BitsBounded(m[k]);
    BitsBounded(n[k]);
    if k + 1 == |m| {
      StepDetects(a, Bits(m[k]), Bits(n[k]));
      BitsInjective(m[k], n[k]);
    } else {
      var b, c := m[k + 1], n[k + 1];
      var ma, na := Step(a, Bits(m[k])), Step(a, Bits(n[k]));
      assert m[k + 1..][1..] == n[k + 1..][1..];
      SuffixKeepsApart(Step(ma, Bits(b)), Step(na, Bits(c)), m[k + 1..][1..]);
      BitsBounded(b);
      BitsBounded(c);
      TwoStepsDetect(a, Bits(m[k]), Bits(b), Bits(n[k]), Bits(c));
      BitsInjective(m[k], n[k]);
      BitsInjective(b, c);
    }
  }
}
