/**
 Field values and their bytes: struct.pack and struct.unpack with the '<' formats of the generated classes,
 and the un-sorting and regrouping that decode does on the flat tuple.
 */
module Wire {
  import opened Bytes
  import opened Layout

  /** One item of a struct tuple. Floating-point numbers are carried as their bit patterns. */
  datatype Atom = Num(n: int) | Raw(bits: bytes) | Text(s: bytes)

  /** An attribute of a message: a single item, or a list for an array field. */
  datatype Value = One(a: Atom) | Many(xs: seq<Atom>)

  predicate IsSigned(t: FieldType) { t.Int8? || t.Int16? || t.Int32? || t.Int64? }

  predicate IsFloating(t: FieldType) { t.Float? || t.Double? }

  // ----- Single items

  function TwosComplement(n: int, m: int): (r: nat)
    requires -m <= 2 * n < m
    ensures r < m && (n < 0 <==> 2 * r >= m)
    ensures n == if 2 * r >= m then r - m else r
  {
    if n < 0 then n + m else n
  }

  function PackAtom(t: FieldType, a: Atom): (r: Option<bytes>)
    ensures r.Some? ==> |r.value| == TypeLength(t)
  {
    var m: int := Pow256(TypeLength(t));
    if IsFloating(t) then
      if a.Raw? && |a.bits| == TypeLength(t) then Some(a.bits) else None
    else if t.Char? then
      if a.Text? && |a.s| == 1 then Some(a.s) else None
    else if !a.Num? then None
    else if IsSigned(t) then
      if -m <= 2 * a.n < m then Some(Le(TwosComplement(a.n, m), TypeLength(t))) else None
    else
      if 0 <= a.n < m then Some(Le(a.n, TypeLength(t))) else None
  }

  function UnpackAtom(t: FieldType, bs: bytes): Atom
    requires |bs| == TypeLength(t)
  {
    if IsFloating(t) then Raw(bs)
    else if t.Char? then Text(bs)
    else if IsSigned(t) && 2 * FromLe(bs) >= Pow256(TypeLength(t)) then Num(FromLe(bs) - Pow256(TypeLength(t)))
    else Num(FromLe(bs))
  }

  lemma AtomRoundTrip(t: FieldType, a: Atom)
    requires PackAtom(t, a).Some?
    ensures UnpackAtom(t, PackAtom(t, a).value) == a
  {
    if a.Num? {
      var m := Pow256(TypeLength(t));
      LeRoundTrip(if IsSigned(t) then TwosComplement(a.n, m) else a.n, TypeLength(t));
    }
  }

  /** Every byte pattern is the encoding of what it decodes to. */
  lemma AtomReprint(t: FieldType, bs: bytes)
    requires |bs| == TypeLength(t)
    ensures PackAtom(t, UnpackAtom(t, bs)) == Some(bs)
  {
    FromLeRoundTrip(bs);
  }

  function PackAtoms(t: FieldType, xs: seq<Atom>): (r: Option<bytes>)
    ensures r.Some? ==> |r.value| == |xs| * TypeLength(t)
    decreases |xs|
  {
    if xs == [] then Some([])
    else
      var first, rest := PackAtom(t, xs[0]), PackAtoms(t, xs[1..]);
      if first.Some? && rest.Some? then Some(first.value + rest.value) else None
  }

  function UnpackAtoms(t: FieldType, bs: bytes, n: nat): (r: seq<Atom>)
    requires |bs| == n * TypeLength(t)
    ensures |r| == n
    decreases n
  {
    if n == 0 then []
    else
      CutOne(n, TypeLength(t));
      [UnpackAtom(t, bs[..TypeLength(t)])] + UnpackAtoms(t, bs[TypeLength(t)..], n - 1)
  }

  lemma CutOne(n: nat, k: nat)
    requires n > 0
    ensures n * k - k == (n - 1) * k >= 0
  {
  }

  lemma {:induction false} AtomsRoundTrip(t: FieldType, xs: seq<Atom>)
    requires PackAtoms(t, xs).Some?
    ensures UnpackAtoms(t, PackAtoms(t, xs).value, |xs|) == xs
    decreases |xs|
  {
    if xs != [] {
      var first, rest := PackAtom(t, xs[0]).value, PackAtoms(t, xs[1..]).value;
      AtomRoundTrip(t, xs[0]);
      AtomsRoundTrip(t, xs[1..]);
      assert (first + rest)[..TypeLength(t)] == first && (first + rest)[TypeLength(t)..] == rest;
    }
  }

  // ----- Fields

  /** Code 'Ns' pads a short string with NUL bytes and cuts a long one. */
  function PadString(s: bytes, n: nat): (r: bytes)
    ensures |r| == n
  {
    if |s| >= n then s[..n] else s + Zeros(n - |s|)
  }

  /** The bytes of one field, or None where struct.pack or the indexing of the attribute raises. */
  function PackField(f: Field, v: Value): (r: Option<bytes>)
    ensures r.Some? ==> |r.value| == WireLength(f)
  {
    if f.ftype.Char? && f.arrayLength != 0 then
      if v.One? && v.a.Text? then Some(PadString(v.a.s, f.arrayLength)) else None
    else if f.arrayLength > 1 then
      if v.Many? && |v.xs| >= f.arrayLength then PackAtoms(f.ftype, v.xs[..f.arrayLength]) else None
    else
      if v.One? then PackAtom(f.ftype, v.a) else None
  }

  /** What one field contributes to the flat tuple of struct.unpack. */
  function UnpackFlat(f: Field, bs: bytes): (r: seq<Atom>)
    requires |bs| == WireLength(f)
    ensures |r| == FlatCount(f)
  {
    if f.ftype.Char? && f.arrayLength != 0 then [Text(bs)]
    else UnpackAtoms(f.ftype, bs, if f.arrayLength == 0 then 1 else f.arrayLength)
  }

  /** A value after one trip through the wire: strings stop at their first NUL, lists at the array length. */
  function Normal(f: Field, v: Value): Value {
    if f.ftype.Char? then
      if v.One? && v.a.Text? then
        One(Text(UntilNul(if f.arrayLength != 0 then v.a.s[..Min(|v.a.s|, f.arrayLength)] else v.a.s)))
      else v
    else if f.arrayLength > 1 && v.Many? && |v.xs| >= f.arrayLength then Many(v.xs[..f.arrayLength])
    else v
  }

  /** The value decode builds from a field's share of the flat tuple. */
  function Regrouped(f: Field, share: seq<Atom>): Value
    requires |share| == FlatCount(f)
  {
    Terminated(if FlatCount(f) == 1 then One(share[0]) else Many(share))
  }

  /** str(MAVString(x)) on strings; lists are left alone. */
  function Terminated(v: Value): Value {
    if v.One? && v.a.Text? then One(Text(UntilNul(v.a.s))) else v
  }

  lemma UntilNulPadded(s: bytes, n: nat)
    ensures UntilNul(PadString(s, n)) == UntilNul(s[..Min(|s|, n)])
  {
    if |s| < n {
      assert s[..Min(|s|, n)] == s;
      UntilNulUnique(s + Zeros(n - |s|), UntilNul(s));
    }
  }

  lemma FieldRoundTrip(f: Field, v: Value)
    requires PackField(f, v).Some?
    ensures Regrouped(f, UnpackFlat(f, PackField(f, v).value)) == Normal(f, v)
  {
    if f.ftype.Char? && f.arrayLength != 0 {
      UntilNulPadded(v.a.s, f.arrayLength);
    } else if f.arrayLength > 1 {
      AtomsRoundTrip(f.ftype, v.xs[..f.arrayLength]);
    } else {
      AtomRoundTrip(f.ftype, v.a);
      var bs := PackField(f, v).value;
      assert bs[..TypeLength(f.ftype)] == bs;
    }
  }

  // ----- Values in range

  /** A number of the type's range, or a float pattern of its size. */
  predicate NumberInRange(t: FieldType, a: Atom) {
    var m: int := Pow256(TypeLength(t));
    if IsFloating(t) then a.Raw? && |a.bits| == TypeLength(t)
    else if IsSigned(t) then a.Num? && -m <= 2 * a.n < m
    else !t.Char? && a.Num? && 0 <= a.n < m
  }

  /**
   What a caller can give a field and get back: a string that fits a character array and holds no NUL, one character
   that is not NUL, a list of exactly the array's length, a number of the type's range.
   */
  predicate InRange(f: Field, v: Value) {
    if f.ftype.Char? && f.arrayLength != 0 then v.One? && v.a.Text? && |v.a.s| <= f.arrayLength && 0 !in v.a.s
    else if f.arrayLength > 1 then
      v.Many? && |v.xs| == f.arrayLength && forall k :: 0 <= k < |v.xs| ==> NumberInRange(f.ftype, v.xs[k])
    else if f.ftype.Char? then v.One? && v.a.Text? && |v.a.s| == 1 && v.a.s[0] != 0
    else v.One? && NumberInRange(f.ftype, v.a)
  }

  lemma {:induction false} PackAtomsInRange(t: FieldType, xs: seq<Atom>)
    requires !t.Char?
    ensures PackAtoms(t, xs).Some? <==> forall k :: 0 <= k < |xs| ==> NumberInRange(t, xs[k])
  {
    if xs != [] {
      PackAtomsInRange(t, xs[1..]);
      assert forall k :: 0 < k < |xs| ==> xs[k] == xs[1..][k - 1];
      if forall k :: 0 <= k < |xs| ==> NumberInRange(t, xs[k]) {
        assert forall k :: 0 <= k < |xs[1..]| ==> xs[1..][k] == xs[k + 1];
      }
    }
  }

  lemma UntilNulIsSame(s: bytes)
    ensures UntilNul(s) == s <==> 0 !in s
  {
    if 0 !in s {
      UntilNulUnique(s, s);
    }
  }

  /** A value is packed and comes back unchanged exactly when it is in range. */
  lemma SurvivesExactlyInRange(f: Field, v: Value)
    ensures PackField(f, v).Some? && Normal(f, v) == v <==> InRange(f, v)
  {
    if f.ftype.Char? && v.One? && v.a.Text? {
      var n := Min(|v.a.s|, f.arrayLength);
      UntilNulIsSame(v.a.s);
      UntilNulIsSame(v.a.s[..n]);
      if |v.a.s| <= f.arrayLength {
        assert v.a.s[..n] == v.a.s;
      }
    } else if !f.ftype.Char? && f.arrayLength > 1 && v.Many? && |v.xs| >= f.arrayLength {
      var xs := v.xs[..f.arrayLength];
      PackAtomsInRange(f.ftype, xs);
      if |v.xs| == f.arrayLength {
        assert xs == v.xs;
      }
    }
  }
}
