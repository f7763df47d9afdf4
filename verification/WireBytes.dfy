/**
 The bytes of field values: which values struct.pack accepts for each type, and what it writes for them, as section
 "Format Characters" of the documentation of Python's struct module gives it for little-endian standard sizes.
 */
module WireBytes {
  import opened Bytes
  import opened Layout
  import opened Wire

  // ----- Numbers

  /** The number that up to eight bytes spell, the least significant first. */
  function Spelled(s: bytes): nat {
    At(s, 0) + 0x100 * At(s, 1) + 0x1_0000 * At(s, 2) + 0x100_0000 * At(s, 3) + 0x1_0000_0000 * At(s, 4)
    + 0x100_0000_0000 * At(s, 5) + 0x1_0000_0000_0000 * At(s, 6) + 0x100_0000_0000_0000 * At(s, 7)
  }

  function At(s: bytes, i: nat): nat { if i < |s| then s[i] else 0 }

  lemma CutFirst(s: bytes, i: nat)
    ensures i < |s| ==> FromLe(s[i..]) == At(s, i) + 0x100 * FromLe(s[i + 1..])
    ensures i == |s| ==> FromLe(s[i..]) == 0
  {
    if i < |s| {
      assert s[i..][1..] == s[i + 1..];
    }
  }

  lemma HighHalf(s: bytes)
    requires |s| <= 8
    ensures |s| >= 4 ==>
              FromLe(s[4..]) == At(s, 4) + 0x100 * At(s, 5) + 0x1_0000 * At(s, 6) + 0x100_0000 * At(s, 7)
  {
    CutFirst(s, 4);
    CutFirst(s, 5);
    CutFirst(s, 6);
    CutFirst(s, 7);
    CutFirst(s, 8);
  }

  lemma SpelledIs(s: bytes)
    requires |s| <= 8
    ensures Spelled(s) == FromLe(s)
  {
    assert s[0..] == s;
    CutFirst(s, 0);
    CutFirst(s, 1);
    CutFirst(s, 2);
    CutFirst(s, 3);
    CutFirst(s, 4);
    HighHalf(s);
  }

  /** Size, and the numbers below and above those of a number type. */
  function SizeOf(t: FieldType): nat {
    if t.Double? || t.Int64? || t.UInt64? then 8
    else if t.Float? || t.Int32? || t.UInt32? then 4
    else if t.Int16? || t.UInt16? then 2
    else 1
  }

  function FirstAbove(t: FieldType): int {
    match t
    case Int8 => 0x80
    case Int16 => 0x8000
    case Int32 => 0x8000_0000
    case Int64 => 0x8000_0000_0000_0000
    case UInt8 => 0x100
    case UInt16 => 0x1_0000
    case UInt32 => 0x1_0000_0000
    case UInt64 => 0x1_0000_0000_0000_0000
    case _ => 0
  }

  function Lowest(t: FieldType): int {
    if t.Int8? || t.Int16? || t.Int32? || t.Int64? then 0 - FirstAbove(t) else 0
  }

  /** The bytes of one item: the pattern of a floating-point number, one character, or two's complement. */
  ghost predicate IsItem(t: FieldType, a: Atom, b: bytes) {
    && |b| == SizeOf(t)
    && if t.Float? || t.Double? then a == Raw(b)
       else if t.Char? then a == Text(b)
       else
         a.Num? && Lowest(t) <= a.n < FirstAbove(t)
         && Spelled(b) == if a.n < 0 then a.n + 2 * FirstAbove(t) else a.n
  }

  lemma SizesAre(t: FieldType)
    ensures TypeLength(t) == SizeOf(t)
    ensures !t.Float? && !t.Double? && !t.Char? ==>
              Pow256(TypeLength(t)) == if Lowest(t) < 0 then 2 * FirstAbove(t) else FirstAbove(t)
    ensures IsSigned(t) == (Lowest(t) < 0)
  {
    PowValues();
  }

  lemma LeIsItem(n: nat, k: nat, b: bytes)
    requires k <= 8 && n < Pow256(k) && |b| == k
    ensures b == Le(n, k) <==> Spelled(b) == n
  {
    SpelledIs(b);
    LeRoundTrip(n, k);
    FromLeRoundTrip(b);
  }

  /** struct.pack of one item. */
  lemma ItemsExactly(t: FieldType, a: Atom, b: bytes)
    ensures PackAtom(t, a) == Some(b) <==> IsItem(t, a, b)
  {
    SizesAre(t);
    if a.Num? && !t.Float? && !t.Double? && !t.Char? && Lowest(t) <= a.n < FirstAbove(t) && |b| == SizeOf(t) {
      LeIsItem(if a.n < 0 then a.n + 2 * FirstAbove(t) else a.n, TypeLength(t), b);
    }
  }

  /** struct.unpack of one item: every pattern of the right size is one. */
  lemma ReadsExactly(t: FieldType, a: Atom, b: bytes)
    requires |b| == TypeLength(t)
    ensures UnpackAtom(t, b) == a <==> IsItem(t, a, b)
  {
    AtomReprint(t, b);
    ItemsExactly(t, UnpackAtom(t, b), b);
    ItemsExactly(t, a, b);
    if PackAtom(t, a) == Some(b) {
      AtomRoundTrip(t, a);
    }
  }

  // ----- Fields

  /** The items of an array, one after the other. */
  ghost predicate AreItems(t: FieldType, xs: seq<Atom>, b: bytes)
    decreases |xs|
  {
    if xs == [] then b == []
    else |b| >= SizeOf(t) && IsItem(t, xs[0], b[..SizeOf(t)]) && AreItems(t, xs[1..], b[SizeOf(t)..])
  }

  /**
   The bytes of one field: a string filled up with zeros or cut, as many items of a list as the array has, or one
   item, also for an array of length 1.
   */
  ghost predicate IsField(f: Field, v: Value, b: bytes) {
    var n := f.arrayLength;
    if f.ftype.Char? && n > 0 then
      && v.One? && v.a.Text? && |b| == n
      && forall i :: 0 <= i < n ==> b[i] == if i < |v.a.s| then v.a.s[i] else 0
    else if n > 1 then v.Many? && |v.xs| >= n && AreItems(f.ftype, v.xs[..n], b)
    else v.One? && IsItem(f.ftype, v.a, b)
  }

  lemma {:induction false} ListsExactly(t: FieldType, xs: seq<Atom>, b: bytes)
    ensures PackAtoms(t, xs) == Some(b) <==> AreItems(t, xs, b)
    decreases |xs|
  {
    if xs != [] {
      var k := SizeOf(t);
      SizesAre(t);
      if |b| >= k {
        ItemsExactly(t, xs[0], b[..k]);
        ListsExactly(t, xs[1..], b[k..]);
        assert b == b[..k] + b[k..];
      }
      var first, rest := PackAtom(t, xs[0]), PackAtoms(t, xs[1..]);
      if first.Some? && rest.Some? {
        assert (first.value + rest.value)[..k] == first.value && (first.value + rest.value)[k..] == rest.value;
      }
    }
  }

  /** struct.pack of one field. */
  lemma FieldsExactly(f: Field, v: Value, b: bytes)
    ensures PackField(f, v) == Some(b) <==> IsField(f, v, b)
  {
    if f.ftype.Char? && f.arrayLength > 0 {
      if v.One? && v.a.Text? && IsField(f, v, b) {
        assert b == PadString(v.a.s, f.arrayLength);
      }
    } else if f.arrayLength > 1 {
      if v.Many? && |v.xs| >= f.arrayLength {
        ListsExactly(f.ftype, v.xs[..f.arrayLength], b);
      }
    } else if v.One? {
      ItemsExactly(f.ftype, v.a, b);
    }
  }
}
