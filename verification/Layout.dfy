/**
 Message definitions and their wire layout: pymavlink/generator/mavparse.py and the index maps that
 pymavlink/generator/mavgen_python.py derives from it.
 */
module Layout {
  import opened Bytes
  import Crc

  datatype FieldType =
    | Float | Double | Char | Int8 | UInt8 | Int16 | UInt16 | Int32 | UInt32 | Int64 | UInt64

  function TypeLength(t: FieldType): (n: nat)
    ensures n == 1 || n == 2 || n == 4 || n == 8
  {
    match t
    case Float => 4
    case Double => 8
    case Char => 1
    case Int8 => 1
    case UInt8 => 1
    case Int16 => 2
    case UInt16 => 2
    case Int32 => 4
    case UInt32 => 4
    case Int64 => 8
    case UInt64 => 8
  }

  function TypeName(t: FieldType): string {
    match t
    case Float => "float"
    case Double => "double"
    case Char => "char"
    case Int8 => "int8_t"
    case UInt8 => "uint8_t"
    case Int16 => "int16_t"
    case UInt16 => "uint16_t"
    case Int32 => "int32_t"
    case UInt32 => "uint32_t"
    case Int64 => "int64_t"
    case UInt64 => "uint64_t"
  }

  /** arrayLength is 0 for a field that is not an array. */
  datatype Field = Field(name: string, ftype: FieldType, arrayLength: nat)

  function WireLength(f: Field): (n: nat)
    ensures n >= 1 && n % TypeLength(f.ftype) == 0
  {
    if f.arrayLength != 0 then
      MultipleOf(f.arrayLength, TypeLength(f.ftype));
      f.arrayLength * TypeLength(f.ftype)
    else TypeLength(f.ftype)
  }

  predicate IsSize(k: nat) { k == 1 || k == 2 || k == 4 || k == 8 }

  lemma MultipleOf(n: nat, k: nat)
    requires IsSize(k)
    ensures (n * k) % k == 0 && n * k >= n
  {
  }

  /** How many values the field takes in the flat tuple of struct.unpack (a char array is one string). */
  function FlatCount(f: Field): (n: nat)
    ensures n >= 1
  {
    if f.arrayLength == 0 then 1
    else if f.arrayLength > 1 && f.ftype == Char then 1
    else f.arrayLength
  }

  function Names(fs: seq<Field>): (r: seq<string>)
    ensures |r| == |fs|
    ensures forall i :: 0 <= i < |fs| ==> r[i] == fs[i].name
  {
    seq(|fs|, i requires 0 <= i < |fs| => fs[i].name)
  }

  ghost predicate Distinct<T(!new)>(s: seq<T>) {
    forall i, j :: 0 <= i < j < |s| ==> s[i] != s[j]
  }

  function TotalLength(fs: seq<Field>): nat
    decreases |fs|
  {
    if fs == [] then 0 else TotalLength(fs[..|fs| - 1]) + WireLength(fs[|fs| - 1])
  }

  datatype MsgDef = MsgDef(id: nat, name: string, fields: seq<Field>, extensionsStart: Option<nat>) {
    /** base_fields: the fields before the extension marker. */
    function BaseCount(): (n: nat)
      ensures n <= |fields|
    {
      match extensionsStart
      case None => |fields|
      case Some(e) => Min(e, |fields|)
    }

    /** ordered_fields: base fields sorted by type size, largest first, then the extensions as declared. */
    function Ordered(): (r: seq<Field>) {
      SortBySize(fields[..BaseCount()]) + fields[BaseCount()..]
    }

    /** The definition was accepted by check_duplicates. */
    ghost predicate Unambiguous() { Distinct(Names(fields)) }
  }

  // ----- The stable sort

  /** Python's sorted(key=type_length, reverse=True) keeps equal keys in their original order. */
  function SortBySize(fs: seq<Field>): (r: seq<Field>)
    ensures |r| == |fs|
    decreases |fs|
  {
    if fs == [] then [] else InsertBySize(fs[0], SortBySize(fs[1..]))
  }

  function InsertBySize(f: Field, s: seq<Field>): (r: seq<Field>)
    ensures |r| == |s| + 1
    decreases |s|
  {
    if s == [] || TypeLength(f.ftype) >= TypeLength(s[0].ftype) then [f] + s
    else [s[0]] + InsertBySize(f, s[1..])
  }

  /** The fields of one size, in order. */
  function OfSize(fs: seq<Field>, n: nat): seq<Field>
    decreases |fs|
  {
    if fs == [] then []
    else (if TypeLength(fs[0].ftype) == n then [fs[0]] else []) + OfSize(fs[1..], n)
  }

  ghost predicate SizesDescend(fs: seq<Field>) {
    forall i, j :: 0 <= i < j < |fs| ==> TypeLength(fs[i].ftype) >= TypeLength(fs[j].ftype)
  }

  lemma {:induction false} InsertMembers(f: Field, s: seq<Field>)
    ensures multiset(InsertBySize(f, s)) == multiset{f} + multiset(s)
    decreases |s|
  {
    if !(s == [] || TypeLength(f.ftype) >= TypeLength(s[0].ftype)) {
      InsertMembers(f, s[1..]);
      assert s == [s[0]] + s[1..];
    }
  }

  lemma InsertedFrom(f: Field, s: seq<Field>, x: Field)
    requires x in InsertBySize(f, s)
    ensures x == f || x in s
  {
    InsertMembers(f, s);
    assert x in multiset(InsertBySize(f, s));
    assert x in multiset{f} + multiset(s);
  }

  lemma DescendsCons(f: Field, s: seq<Field>)
    requires SizesDescend(s) && forall x :: x in s ==> TypeLength(f.ftype) >= TypeLength(x.ftype)
    ensures SizesDescend([f] + s)
  {
  }

  lemma {:induction false} InsertDescends(f: Field, s: seq<Field>)
    requires SizesDescend(s)
    ensures SizesDescend(InsertBySize(f, s))
    decreases |s|
  {
    if !(s == [] || TypeLength(f.ftype) >= TypeLength(s[0].ftype)) {
      var r := InsertBySize(f, s[1..]);
      InsertDescends(f, s[1..]);
      forall x | x in r ensures TypeLength(s[0].ftype) >= TypeLength(x.ftype) {
        InsertedFrom(f, s[1..], x);
      }
      DescendsCons(s[0], r);
    }
  }

  lemma OfSizeCons(f: Field, s: seq<Field>, n: nat)
    ensures OfSize([f] + s, n) == (if TypeLength(f.ftype) == n then [f] else []) + OfSize(s, n)
  {
    assert ([f] + s)[1..] == s;
  }

  lemma SwapUnequal(f: Field, g: Field, s: seq<Field>, n: nat)
    requires TypeLength(f.ftype) != TypeLength(g.ftype)
    ensures OfSize([g] + ([f] + s), n) == OfSize([f] + ([g] + s), n)
  {
    OfSizeCons(f, s, n);
    OfSizeCons(g, s, n);
    OfSizeCons(g, [f] + s, n);
    OfSizeCons(f, [g] + s, n);
  }

  lemma {:induction false} InsertKeepsClass(f: Field, s: seq<Field>, n: nat)
    ensures OfSize(InsertBySize(f, s), n) == OfSize([f] + s, n)
    decreases |s|
  {
    if !(s == [] || TypeLength(f.ftype) >= TypeLength(s[0].ftype)) {
      InsertKeepsClass(f, s[1..], n);
      SwapUnequal(f, s[0], s[1..], n);
      OfSizeCons(s[0], InsertBySize(f, s[1..]), n);
      OfSizeCons(s[0], [f] + s[1..], n);
      assert s == [s[0]] + s[1..];
    }
  }

  /** The sort orders by size, loses and invents nothing, and keeps every size class as declared. */
  lemma {:induction false} SortIsStable(fs: seq<Field>, n: nat)
    ensures SizesDescend(SortBySize(fs))
    ensures multiset(SortBySize(fs)) == multiset(fs)
    ensures OfSize(SortBySize(fs), n) == OfSize(fs, n)
    decreases |fs|
  {
    if fs != [] {
      SortIsStable(fs[1..], n);
      var rest := SortBySize(fs[1..]);
      InsertMembers(fs[0], rest);
      InsertDescends(fs[0], rest);
      InsertKeepsClass(fs[0], rest, n);
      OfSizeCons(fs[0], rest, n);
      assert fs == [fs[0]] + fs[1..];
    }
  }

  // ----- Offsets

  lemma TotalLengthPrefix(fs: seq<Field>, i: nat)
    requires i < |fs|
    ensures TotalLength(fs[..i + 1]) == TotalLength(fs[..i]) + WireLength(fs[i])
  {
    assert fs[..i + 1][..i] == fs[..i];
  }

  lemma {:induction false} TotalLengthConcat(a: seq<Field>, b: seq<Field>)
    ensures TotalLength(a + b) == TotalLength(a) + TotalLength(b)
    decreases |b|
  {
    if b == [] {
      assert a + b == a;
    } else {
      assert (a + b)[..|a + b| - 1] == a + b[..|b| - 1];
      TotalLengthConcat(a, b[..|b| - 1]);
    }
  }

  /** Where field i of a wire order starts. */
  function Offset(fs: seq<Field>, i: nat): nat
    requires i <= |fs|
  {
    TotalLength(fs[..i])
  }

  lemma {:induction false} AlignedTotal(fs: seq<Field>, k: nat)
    requires IsSize(k) && forall f :: f in fs ==> TypeLength(f.ftype) >= k
    ensures TotalLength(fs) % k == 0
    decreases |fs|
  {
    if fs != [] {
      AlignedTotal(fs[..|fs| - 1], k);
      var f := fs[|fs| - 1];
      assert f in fs;
      FieldIsAligned(f, k);
      SumIsAligned(TotalLength(fs[..|fs| - 1]), WireLength(f), k);
    }
  }

  lemma FieldIsAligned(f: Field, k: nat)
    requires IsSize(k) && TypeLength(f.ftype) >= k
    ensures WireLength(f) % k == 0
  {
    var n := TypeLength(f.ftype);
    CoarserIsFiner(WireLength(f), n, k);
  }

  lemma AlignedIsMultiple(n: nat, k: nat) returns (m: nat)
    requires IsSize(k) && n % k == 0
    ensures n == m * k
  {
    m := n / k;
  }

  lemma SumIsAligned(a: nat, b: nat, k: nat)
    requires IsSize(k) && a % k == 0 && b % k == 0
    ensures (a + b) % k == 0
  {
    var p := AlignedIsMultiple(a, k);
    var q := AlignedIsMultiple(b, k);
    MultipleOf(p + q, k);
    assert a + b == (p + q) * k;
  }

  lemma CoarserIsFiner(n: nat, big: nat, small: nat)
    requires IsSize(big) && IsSize(small) && big >= small && n % big == 0
    ensures n % small == 0
  {
    var m := AlignedIsMultiple(n, big);
    var ratio := big / small;
    MultipleOf(m * ratio, small);
    Regroup(m, ratio, small);
    assert big == ratio * small;
  }

  lemma Regroup(a: nat, b: nat, c: nat)
    ensures a * (b * c) == (a * b) * c
  {
  }

  /**
   The layout tiles the payload: field ranges follow one another without gap or overlap and end at the
   wire length, and every base field starts at a multiple of its element size.
   */
  lemma LayoutTiles(def: MsgDef, i: nat)
    requires i < |def.Ordered()|
    ensures Offset(def.Ordered(), 0) == 0
    ensures Offset(def.Ordered(), i + 1) == Offset(def.Ordered(), i) + WireLength(def.Ordered()[i])
    ensures Offset(def.Ordered(), |def.Ordered()|) == TotalLength(def.fields)
    ensures i < def.BaseCount() ==> Offset(def.Ordered(), i) % TypeLength(def.Ordered()[i].ftype) == 0
  {
    var os, b := def.Ordered(), def.BaseCount();
    TotalLengthPrefix(os, i);
    assert os[..|os|] == os;
    OrderedTotal(def);
    if i < b {
      SortIsStable(def.fields[..b], 1);
      var sorted := SortBySize(def.fields[..b]);
      assert os[..i] == sorted[..i] && os[i] == sorted[i];
      AlignedTotal(os[..i], TypeLength(os[i].ftype));
    }
  }

  lemma OrderedIsPermutation(def: MsgDef)
    ensures multiset(def.Ordered()) == multiset(def.fields)
  {
    var b := def.BaseCount();
    SortIsStable(def.fields[..b], 1);
    assert def.fields == def.fields[..b] + def.fields[b..];
  }

  lemma {:induction false} InsertTotal(f: Field, s: seq<Field>)
    ensures TotalLength(InsertBySize(f, s)) == WireLength(f) + TotalLength(s)
    decreases |s|
  {
    TotalOfOne(f);
    if s == [] || TypeLength(f.ftype) >= TypeLength(s[0].ftype) {
      TotalLengthConcat([f], s);
    } else {
      TotalOfOne(s[0]);
      InsertTotal(f, s[1..]);
      TotalLengthConcat([s[0]], InsertBySize(f, s[1..]));
      TotalLengthConcat([s[0]], s[1..]);
      assert s == [s[0]] + s[1..];
    }
  }

  lemma TotalOfOne(f: Field)
    ensures TotalLength([f]) == WireLength(f)
  {
    assert [f][..0] == [];
  }

  lemma {:induction false} SortTotal(fs: seq<Field>)
    ensures TotalLength(SortBySize(fs)) == TotalLength(fs)
    decreases |fs|
  {
    if fs != [] {
      SortTotal(fs[1..]);
      InsertTotal(fs[0], SortBySize(fs[1..]));
      TotalOfOne(fs[0]);
      TotalLengthConcat([fs[0]], fs[1..]);
      assert fs == [fs[0]] + fs[1..];
    }
  }

  /** The wire length does not depend on the order of the fields. */
  lemma OrderedTotal(def: MsgDef)
    ensures TotalLength(def.Ordered()) == TotalLength(def.fields)
  {
    var b := def.BaseCount();
    SortTotal(def.fields[..b]);
    TotalLengthConcat(SortBySize(def.fields[..b]), def.fields[b..]);
    TotalLengthConcat(def.fields[..b], def.fields[b..]);
    assert def.fields == def.fields[..b] + def.fields[b..];
  }

  // ----- The index maps of the generated classes

  /** The index of the first occurrence, or the length when there is none. */
  function IndexOf(names: seq<string>, n: string): (i: nat)
    ensures i <= |names|
    ensures i < |names| ==> names[i] == n
    ensures n !in names[..i]
    ensures i == |names| ==> n !in names
    decreases |names|
  {
    if names == [] then 0
    else if names[0] == n then 0
    else
      var r := 1 + IndexOf(names[1..], n);
      assert names[..r] == [names[0]] + names[1..][..r - 1];
      assert names == [names[0]] + names[1..];
      r
  }

  function OrderMap(def: MsgDef): (r: seq<nat>)
    ensures |r| == |def.fields|
  {
    seq(|def.fields|, i requires 0 <= i < |def.fields| => IndexOf(Names(def.Ordered()), def.fields[i].name))
  }

  lemma {:induction false} DistinctMultiplicity<T(!new)>(s: seq<T>, x: T)
    requires Distinct(s)
    ensures multiset(s)[x] <= 1
    decreases |s|
  {
    if s != [] {
      assert s == s[..|s| - 1] + [s[|s| - 1]];
      DistinctMultiplicity(s[..|s| - 1], x);
    }
  }

  lemma RepeatedMultiplicity<T>(s: seq<T>, i: nat, j: nat)
    requires i < j < |s| && s[i] == s[j]
    ensures multiset(s)[s[i]] >= 2
  {
    assert s == s[..j] + s[j..];
    assert s[i] in s[..j] && s[j] in s[j..];
  }

  /** Names stay distinct under the sort. */
  lemma OrderedNamesDistinct(def: MsgDef)
    requires def.Unambiguous()
    ensures Distinct(Names(def.Ordered()))
  {
    var fs, os := def.fields, def.Ordered();
    OrderedIsPermutation(def);
    assert Distinct(fs) by {
      assert forall i :: 0 <= i < |fs| ==> Names(fs)[i] == fs[i].name;
    }
    forall i, j | 0 <= i < j < |os| ensures os[i].name != os[j].name {
      assert os[i] in multiset(os) && os[j] in multiset(os);
      var a :| 0 <= a < |fs| && fs[a] == os[i];
      var b :| 0 <= b < |fs| && fs[b] == os[j];
      if os[i].name == os[j].name {
        assert Names(fs)[a] == Names(fs)[b];
        RepeatedMultiplicity(os, i, j);
        DistinctMultiplicity(fs, os[i]);
      }
    }
  }

  lemma OrderedSameLength(def: MsgDef)
    ensures |def.Ordered()| == |def.fields|
  {
    OrderedIsPermutation(def);
    assert |def.Ordered()| == |multiset(def.Ordered())| == |multiset(def.fields)|;
  }

  lemma OrderMapFinds(def: MsgDef, i: nat)
    requires def.Unambiguous() && i < |def.fields| == |def.Ordered()|
    ensures OrderMap(def)[i] < |def.fields| && def.Ordered()[OrderMap(def)[i]] == def.fields[i]
  {
    var fs, os := def.fields, def.Ordered();
    OrderedIsPermutation(def);
    OrderedNamesDistinct(def);
    assert fs[i] in multiset(fs) && fs[i] in multiset(os);
    var j :| 0 <= j < |os| && os[j] == fs[i];
    IndexIs(Names(os), j);
  }

  lemma OrderMapReaches(def: MsgDef, j: nat)
    requires def.Unambiguous() && j < |def.fields| == |def.Ordered()|
    ensures j in OrderMap(def)
  {
    var fs, os := def.fields, def.Ordered();
    OrderedIsPermutation(def);
    OrderedNamesDistinct(def);
    assert os[j] in multiset(os) && os[j] in multiset(fs);
    var i :| 0 <= i < |fs| && fs[i] == os[j];
    IndexIs(Names(os), j);
    assert OrderMap(def)[i] == j;
  }

  lemma OrderMapDistinct(def: MsgDef)
    requires def.Unambiguous() && |def.fields| == |def.Ordered()|
    ensures Distinct(OrderMap(def))
  {
    var fs, om := def.fields, OrderMap(def);
    forall i, k | 0 <= i < k < |om| ensures om[i] != om[k] {
      OrderMapFinds(def, i);
      OrderMapFinds(def, k);
      assert Names(fs)[i] == fs[i].name && Names(fs)[k] == fs[k].name;
    }
  }

  /** order_map sends every declared field to its own place on the wire, and reaches every place. */
  lemma OrderMapIsPermutation(def: MsgDef)
    requires def.Unambiguous()
    ensures |def.Ordered()| == |def.fields|
    ensures forall i :: 0 <= i < |def.fields| ==>
              OrderMap(def)[i] < |def.fields| && def.Ordered()[OrderMap(def)[i]] == def.fields[i]
    ensures Distinct(OrderMap(def))
    ensures forall j :: 0 <= j < |def.fields| ==> j in OrderMap(def)
  {
    OrderedSameLength(def);
    forall i | 0 <= i < |def.fields|
      ensures OrderMap(def)[i] < |def.fields| && def.Ordered()[OrderMap(def)[i]] == def.fields[i]
    {
      OrderMapFinds(def, i);
    }
    forall j | 0 <= j < |def.fields| ensures j in OrderMap(def) {
      OrderMapReaches(def, j);
    }
    OrderMapDistinct(def);
  }

  lemma IndexIs(names: seq<string>, j: nat)
    requires Distinct(names) && j < |names|
    ensures IndexOf(names, names[j]) == j
  {
    assert names[j] in names;
  }

  /** fieldlengths: the flat count of every field, as declared. */
  function FieldLengths(def: MsgDef): (r: seq<nat>)
    ensures |r| == |def.fields|
  {
    seq(|def.fields|, i requires 0 <= i < |def.fields| => FlatCount(def.fields[i]))
  }

  /** The flat counts in wire order. */
  function Counts(fs: seq<Field>): (r: seq<nat>)
    ensures |r| == |fs|
    ensures forall i :: 0 <= i < |fs| ==> r[i] == FlatCount(fs[i])
  {
    seq(|fs|, i requires 0 <= i < |fs| => FlatCount(fs[i]))
  }

  /** A definition whose layout has been computed in place. */
  class MavType {
    const def: MsgDef
    var wireLength: nat
    var wireMinLength: nat
    var fieldnames: seq<string>
    var fieldlengths: seq<nat>
    var orderedFields: seq<Field>
    var orderedFieldnames: seq<string>
    var wireOffsets: seq<nat>
    var crcExtra: byte
    var orderMap: seq<nat>
    var lenMap: seq<nat>
    var arrayLenMap: seq<nat>

    constructor (def: MsgDef)
      ensures this.def == def
    {
      this.def := def;
    }

    ghost predicate LaidOut() reads this {
      && orderedFields == def.Ordered()
      && fieldnames == Names(def.fields)
      && fieldlengths == FieldLengths(def)
      && Placed(|orderedFields|)
    }

    /** The first loop over the declared fields. */
    method CollectFields()
      modifies this`fieldnames, this`fieldlengths
      ensures fieldnames == Names(def.fields) && fieldlengths == FieldLengths(def)
    {
      fieldnames, fieldlengths := [], [];
      for i := 0 to |def.fields|
        invariant fieldnames == Names(def.fields)[..i] && fieldlengths == FieldLengths(def)[..i]
      {
        fieldnames := fieldnames + [def.fields[i].name];
        fieldlengths := fieldlengths + [FlatCount(def.fields[i])];
      }
    }

    /** The body of the second loop, for ordered field i. */
    method PlaceField(i: nat)
      requires i < |orderedFields| && Placed(i)
      modifies this`wireOffsets, this`wireLength, this`wireMinLength, this`orderedFieldnames
      ensures Placed(i + 1)
    {
      var f := orderedFields[i];
      TotalLengthPrefix(orderedFields, i);
      wireOffsets := wireOffsets + [wireLength];
      wireLength := wireLength + WireLength(f);
      if i < def.BaseCount() {
        wireMinLength := wireLength;
      }
      orderedFieldnames := orderedFieldnames + [f.name];
    }

    /** The second loop, over the ordered fields; false stands for MAVParseError. */
    method PlaceFields() returns (ok: bool)
      modifies this`wireOffsets, this`wireLength, this`wireMinLength, this`orderedFieldnames
      ensures ok <==> forall f :: f in orderedFields ==> '[' !in f.name
      ensures ok ==> Placed(|orderedFields|)
    {
      wireLength, wireMinLength, wireOffsets, orderedFieldnames := 0, 0, [], [];
      assert orderedFields[..0] == [];
      for i := 0 to |orderedFields|
        invariant Placed(i)
        invariant forall k :: 0 <= k < i ==> '[' !in orderedFields[k].name
      {
        PlaceField(i);
        if '[' in orderedFields[i].name {
          return false;
        }
      }
      return true;
    }

    /** The first n ordered fields have their place. */
    ghost predicate Placed(n: nat) reads this {
      && n <= |orderedFields|
      && |orderedFieldnames| == n
      && (forall k :: 0 <= k < n ==> orderedFieldnames[k] == orderedFields[k].name)
      && wireLength == Offset(orderedFields, n)
      && wireMinLength == Offset(orderedFields, Min(n, def.BaseCount()))
      && |wireOffsets| == n
      && forall k :: 0 <= k < n ==> wireOffsets[k] == Offset(orderedFields, k)
    }

    /** The layout of one message; false stands for the exception that it raises. */
    method LayOut() returns (ok: bool)
      modifies this
      ensures ok <==> |def.fields| <= 64 && forall f :: f in def.fields ==> '[' !in f.name
      ensures ok ==> LaidOut()
    {
      OrderedIsPermutation(def);
      orderedFields := def.Ordered();
      assert forall f :: f in def.fields <==> f in multiset(orderedFields);
      CollectFields();
      var placed := PlaceFields();
      return placed && |fieldnames| <= 64;
    }

    /** The first loop of generate, over the names as declared, the names and the fields in wire order. */
    static method OrderAll(declared: seq<string>, names: seq<string>, fields: seq<Field>)
      returns (order: seq<nat>, lens: seq<nat>)
      requires |declared| == |fields|
      ensures |order| == |lens| == |declared|
      ensures forall k :: 0 <= k < |order| ==> order[k] == IndexOf(names, declared[k])
      ensures forall k :: 0 <= k < |lens| ==> lens[k] == fields[k].arrayLength
    {
      var n := |declared|;
      order, lens := Zeros(n), Zeros(n);
      for i := 0 to n
        invariant |order| == |lens| == n
        invariant forall k :: 0 <= k < i ==> order[k] == IndexOf(names, declared[k])
        invariant forall k :: 0 <= k < i ==> lens[k] == fields[k].arrayLength
      {
        order := order[i := IndexOf(names, declared[i])];
        lens := lens[i := fields[i].arrayLength];
      }
    }

    /** order_map and array_len_map. */
    method MapOrder()
      requires LaidOut()
      modifies this`orderMap, this`arrayLenMap
      ensures orderMap == OrderMap(def)
      ensures |arrayLenMap| == |orderedFields|
      ensures forall i :: 0 <= i < |arrayLenMap| ==> arrayLenMap[i] == orderedFields[i].arrayLength
    {
      OrderedSameLength(def);
      assert orderedFieldnames == Names(def.Ordered());
      orderMap, arrayLenMap := OrderAll(fieldnames, orderedFieldnames, orderedFields);
      assert forall i :: 0 <= i < |orderMap| ==> orderMap[i] == OrderMap(def)[i];
    }

    /** The second loop of generate: len_map ends up holding the flat counts in wire order. */
    method MapLengths()
      requires LaidOut() && def.Unambiguous() && orderMap == OrderMap(def)
      modifies this`lenMap
      ensures lenMap == Counts(def.Ordered())
    {
      OrderMapIsPermutation(def);
      var n := |fieldnames|;
      lenMap := Zeros(n);
      for i := 0 to n
        invariant |lenMap| == n
        invariant forall k :: 0 <= k < i ==> lenMap[orderMap[k]] == FlatCount(def.fields[k])
      {
        lenMap := lenMap[orderMap[i] := fieldlengths[i]];
      }
      forall j | 0 <= j < n ensures lenMap[j] == FlatCount(def.Ordered()[j]) {
        assert j in orderMap;
        var k :| 0 <= k < n && orderMap[k] == j;
      }
    }
  }

  // ----- The schema checksum

  /** What message_checksum feeds to the CRC for one field. */
  function FieldBytes(f: Field): bytes {
    Ascii(TypeName(f.ftype) + " ") + Ascii(f.name + " ")
    + (if f.arrayLength != 0 then [f.arrayLength % 256] else [])
  }

  function FieldsBytes(fs: seq<Field>): bytes
    decreases |fs|
  {
    if fs == [] then [] else FieldsBytes(fs[..|fs| - 1]) + FieldBytes(fs[|fs| - 1])
  }

  function SchemaBytes(def: MsgDef): bytes {
    Ascii(def.name + " ") + FieldsBytes(SortBySize(def.fields[..def.BaseCount()]))
  }

  function CrcExtra(def: MsgDef): byte {
    Crc.FoldHalves(Crc.Accumulate(Crc.INIT, SchemaBytes(def)))
  }

  /** The register an object holds after these bytes. */
  ghost predicate HasSeen(crc: Crc.X25Crc, fed: bytes)
    reads crc
  {
    crc.crc == Crc.Widen(Crc.Accumulate(Crc.INIT, fed))
  }

  method FeedMore(crc: Crc.X25Crc, ghost fed: bytes, more: bytes)
    requires HasSeen(crc, fed)
    modifies crc
    ensures HasSeen(crc, fed + more)
  {
    crc.Add(Crc.Accumulate(Crc.INIT, fed), more);
    Crc.Chains(Crc.INIT, fed, more);
  }

  /** The loop of message_checksum. */
  method FeedFields(crc: Crc.X25Crc, ghost fed: bytes, fs: seq<Field>)
    requires HasSeen(crc, fed)
    modifies crc
    ensures HasSeen(crc, fed + FieldsBytes(fs))
  {
    ghost var sofar := fed;
    assert sofar == fed + FieldsBytes(fs[..0]);
    for i := 0 to |fs|
      invariant HasSeen(crc, sofar)
      invariant sofar == fed + FieldsBytes(fs[..i])
    {
      ghost var before := sofar;
      FeedMore(crc, sofar, FieldBytes(fs[i]));
      sofar := sofar + FieldBytes(fs[i]);
      FedGrows(fed, before, fs, i);
    }
    assert fs[..|fs|] == fs;
  }

  lemma FedGrows(fed: bytes, sofar: bytes, fs: seq<Field>, i: nat)
    requires i < |fs| && sofar == fed + FieldsBytes(fs[..i])
    ensures sofar + FieldBytes(fs[i]) == fed + FieldsBytes(fs[..i + 1])
  {
    FieldsBytesGrow(fs, i);
    Reassociate(fed, FieldsBytes(fs[..i]), FieldBytes(fs[i]));
  }

  lemma FieldsBytesGrow(fs: seq<Field>, i: nat)
    requires i < |fs|
    ensures FieldsBytes(fs[..i + 1]) == FieldsBytes(fs[..i]) + FieldBytes(fs[i])
  {
    assert fs[..i + 1][..i] == fs[..i];
  }

  /** message_checksum: the CRC object is fed the name and then every base field in wire order. */
  method MessageChecksum(def: MsgDef) returns (r: byte)
    ensures r == CrcExtra(def)
  {
    var crc := new Crc.X25Crc(Ascii(def.name + " "));
    FeedFields(crc, Ascii(def.name + " "), SortBySize(def.fields[..def.BaseCount()]));
    r := Crc.FoldWide(crc.crc);
    Crc.FoldWideIsFold(Crc.Accumulate(Crc.INIT, SchemaBytes(def)));
  }

  /** A definition with more extension fields after the marker. */
  ghost predicate Extends(newer: MsgDef, older: MsgDef) {
    && newer.name == older.name && newer.id == older.id
    && newer.BaseCount() == older.BaseCount()
    && older.fields <= newer.fields
  }

  lemma ExtensionsKeepChecksum(newer: MsgDef, older: MsgDef)
    requires Extends(newer, older)
    ensures CrcExtra(newer) == CrcExtra(older)
  {
    var b := older.BaseCount();
    assert newer.fields[..b] == older.fields[..b];
    assert SchemaBytes(newer) == SchemaBytes(older);
  }

  lemma ExtensionsComeLast(newer: MsgDef, older: MsgDef)
    requires Extends(newer, older)
    ensures newer.Ordered() == older.Ordered() + newer.fields[|older.fields|..]
  {
    var b := older.BaseCount();
    assert newer.fields[..b] == older.fields[..b];
    assert newer.fields[b..] == older.fields[b..] + newer.fields[|older.fields|..];
    Reassociate(SortBySize(older.fields[..b]), older.fields[b..], newer.fields[|older.fields|..]);
  }

  /** Adding extension fields changes neither crc_extra nor the place of any field there was. */
  lemma ExtensionsKeepLayout(newer: MsgDef, older: MsgDef)
    requires Extends(newer, older)
    ensures CrcExtra(newer) == CrcExtra(older)
    ensures older.Ordered() <= newer.Ordered()
    ensures newer.Ordered() == older.Ordered() + newer.fields[|older.fields|..]
    ensures forall i :: 0 <= i <= |older.Ordered()| ==> Offset(newer.Ordered(), i) == Offset(older.Ordered(), i)
  {
    ExtensionsKeepChecksum(newer, older);
    ExtensionsComeLast(newer, older);
    var os, ns := older.Ordered(), newer.Ordered();
    forall i | 0 <= i <= |os| ensures Offset(ns, i) == Offset(os, i) {
      assert ns[..i] == os[..i];
    }
  }
}
