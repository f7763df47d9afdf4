/**
 Whole payloads: struct.pack over the ordered fields of a message, and the part of MAVLink.decode that
 unpacks, un-sorts and regroups them (pymavlink/generator/mavgen_python.py).
 */
module Payload {
  import opened Bytes
  import opened Layout
  import opened Wire

  // ----- Packing

  /** The fields back to back, or None where some field does not fit. */
  function PackAll(fs: seq<Field>, vs: seq<Value>): (r: Option<bytes>)
    requires |fs| == |vs|
    ensures r.Some? ==> |r.value| == TotalLength(fs)
    decreases |fs|
  {
    if fs == [] then Some([])
    else
      var n := |fs| - 1;
      var front, last := PackAll(fs[..n], vs[..n]), PackField(fs[n], vs[n]);
      if front.Some? && last.Some? then Some(front.value + last.value) else None
  }

  /** The attributes of a message in wire order: self.<name> for every ordered field. */
  function WireValues(def: MsgDef, values: seq<Value>): (r: seq<Value>)
    requires |values| == |def.fields|
    ensures |r| == |def.Ordered()|
  {
    seq(|def.Ordered()|, j requires 0 <= j < |def.Ordered()| => Attribute(def, values, def.Ordered()[j].name))
  }

  /** The attribute of that name; every ordered field has one. */
  function Attribute(def: MsgDef, values: seq<Value>, name: string): Value
    requires |values| == |def.fields|
  {
    var i := IndexOf(Names(def.fields), name);
    if i < |values| then values[i] else One(Num(0))
  }

  /** The struct.pack call of a generated pack method. */
  function Pack(def: MsgDef, values: seq<Value>): (r: Option<bytes>)
    requires |values| == |def.fields|
    ensures r.Some? ==> |r.value| == TotalLength(def.Ordered())
  {
    PackAll(def.Ordered(), WireValues(def, values))
  }

  // ----- Unpacking

  /** struct.unpack with the message's format. */
  function UnpackAll(fs: seq<Field>, body: bytes): (t: seq<Atom>)
    requires |body| == TotalLength(fs)
    ensures |t| == Sum(Counts(fs))
    decreases |fs|
  {
    if fs == [] then []
    else
      var n := |fs| - 1;
      assert Counts(fs)[..n] == Counts(fs[..n]);
      UnpackAll(fs[..n], body[..TotalLength(fs[..n])]) + UnpackFlat(fs[n], body[TotalLength(fs[..n])..])
  }

  function Sum(s: seq<nat>): nat
    decreases |s|
  {
    if s == [] then 0 else Sum(s[..|s| - 1]) + s[|s| - 1]
  }

  lemma {:induction false} SumPrefix(s: seq<nat>, i: nat, j: nat)
    requires i <= j <= |s|
    ensures Sum(s[..i]) <= Sum(s[..j])
    ensures i < j ==> Sum(s[..i]) + s[i] <= Sum(s[..j])
    decreases j
  {
    if i < j {
      assert s[..j][..j - 1] == s[..j - 1];
      if i < j - 1 {
        SumPrefix(s, i, j - 1);
      }
    }
  }

  /** When a sum of positive numbers equals their count, each is 1 and prefix sums are indices. */
  lemma {:induction false} SumOfOnes(s: seq<nat>, i: nat)
    requires forall k :: 0 <= k < |s| ==> s[k] >= 1
    requires i <= |s|
    ensures Sum(s) >= |s|
    ensures Sum(s) == |s| ==> Sum(s[..i]) == i && (i < |s| ==> s[i] == 1)
    decreases |s|
  {
    if s == [] {
      assert s[..i] == s;
    } else {
      var n := |s| - 1;
      if i == |s| {
        SumOfOnes(s[..n], n);
        assert s[..i] == s;
      } else {
        SumOfOnes(s[..n], i);
        assert s[..n][..i] == s[..i];
      }
    }
  }

  /**
   One entry of the decoded list: in a message without arrays the flat item itself, otherwise the run of
   items found by summing the lengths of the fields before it on the wire.
   */
  function ListEntry(lens: seq<nat>, order: nat, t: seq<Atom>): Value
    requires order < |lens| && |t| == Sum(lens)
    requires forall k :: 0 <= k < |lens| ==> lens[k] >= 1
  {
    SumOfOnes(lens, order);
    if Sum(lens) == |lens| then One(t[order])
    else
      var tip := Sum(lens[..order]);
      SumPrefix(lens, order, |lens|);
      assert lens[..|lens|] == lens;
      if lens[order] == 1 || t[tip].Text? then One(t[tip]) else Many(t[tip..tip + lens[order]])
  }

  /** The values decode hands to the message constructor, in declaration order. */
  function Unpack(def: MsgDef, body: bytes): (r: seq<Value>)
    requires def.Unambiguous() && |body| == TotalLength(def.Ordered())
    ensures |r| == |def.fields|
  {
    OrderMapIsPermutation(def);
    var t := UnpackAll(def.Ordered(), body);
    seq(|def.fields|, i requires 0 <= i < |def.fields| =>
      Terminated(ListEntry(Counts(def.Ordered()), OrderMap(def)[i], t)))
  }

  // ----- Each field finds its own bytes

  lemma {:induction false} FieldEnds(fs: seq<Field>, j: nat)
    requires j < |fs|
    ensures Offset(fs, j) + WireLength(fs[j]) <= TotalLength(fs)
    ensures j == |fs| - 1 ==> Offset(fs, j) + WireLength(fs[j]) == TotalLength(fs)
    decreases |fs|
  {
    var n := |fs| - 1;
    if j < n {
      FieldEnds(fs[..n], j);
      OffsetFront(fs, j);
    }
  }

  lemma OffsetFront(fs: seq<Field>, j: nat)
    requires j < |fs| - 1
    ensures |fs| > 0 && Offset(fs[..|fs| - 1], j) == Offset(fs, j)
  {
    assert fs[..|fs| - 1][..j] == fs[..j];
  }

  /** The bytes of field j. */
  function FieldSlice(fs: seq<Field>, body: bytes, j: nat): (r: bytes)
    requires |body| == TotalLength(fs) && j < |fs|
    ensures |r| == WireLength(fs[j])
  {
    FieldEnds(fs, j);
    body[Offset(fs, j)..Offset(fs, j) + WireLength(fs[j])]
  }

  lemma SliceOfPrefix(s: bytes, cut: nat, lo: nat, hi: nat)
    requires lo <= hi <= cut <= |s|
    ensures s[..cut][lo..hi] == s[lo..hi]
  {
  }

  lemma FieldSliceFront(fs: seq<Field>, body: bytes, j: nat)
    requires |body| == TotalLength(fs) && j < |fs| - 1
    ensures |fs| > 0 && TotalLength(fs[..|fs| - 1]) <= |body|
    ensures FieldSlice(fs[..|fs| - 1], body[..TotalLength(fs[..|fs| - 1])], j) == FieldSlice(fs, body, j)
  {
    var front := fs[..|fs| - 1];
    OffsetFront(fs, j);
    FieldEnds(front, j);
    SliceOfPrefix(body, TotalLength(front), Offset(fs, j), Offset(fs, j) + WireLength(fs[j]));
  }

  lemma FieldSliceLast(fs: seq<Field>, body: bytes)
    requires |body| == TotalLength(fs) && |fs| > 0
    ensures TotalLength(fs[..|fs| - 1]) <= |body|
    ensures FieldSlice(fs, body, |fs| - 1) == body[TotalLength(fs[..|fs| - 1])..]
  {
    FieldEnds(fs, |fs| - 1);
  }

  lemma CountsFront(fs: seq<Field>, j: nat)
    requires j < |fs|
    ensures Counts(fs)[..j] == Counts(fs[..|fs| - 1])[..j]
    ensures Counts(fs)[..|fs| - 1] == Counts(fs[..|fs| - 1])
    ensures Sum(Counts(fs)) == Sum(Counts(fs[..|fs| - 1])) + FlatCount(fs[|fs| - 1])
  {
    assert Counts(fs)[..|fs| - 1] == Counts(fs[..|fs| - 1]);
  }

  lemma SliceOfSum<T>(a: seq<T>, b: seq<T>, lo: nat, hi: nat)
    ensures lo <= hi <= |a| ==> (a + b)[lo..hi] == a[lo..hi]
    ensures (a + b)[|a|..|a| + |b|] == b
  {
  }

  lemma UnpackSplits(fs: seq<Field>, body: bytes)
    requires |body| == TotalLength(fs) && |fs| > 0
    ensures var n, cut := |fs| - 1, TotalLength(fs[..|fs| - 1]);
            && cut <= |body|
            && UnpackAll(fs, body) == UnpackAll(fs[..n], body[..cut]) + UnpackFlat(fs[n], body[cut..])
  {
  }

  /** Field j's items stand at this run of the flat tuple. */
  ghost predicate SharesAt(fs: seq<Field>, t: seq<Atom>, j: nat, share: seq<Atom>)
    requires j < |fs|
  {
    var lo := Sum(Counts(fs)[..j]);
    lo + |share| <= |t| && t[lo..lo + |share|] == share
  }

  lemma ShareOfLast(fs: seq<Field>, front: seq<Atom>, last: seq<Atom>)
    requires |fs| > 0 && |front| == Sum(Counts(fs[..|fs| - 1]))
    ensures SharesAt(fs, front + last, |fs| - 1, last)
  {
    CountsFront(fs, |fs| - 1);
  }

  lemma ShareOfFront(fs: seq<Field>, front: seq<Atom>, last: seq<Atom>, j: nat, share: seq<Atom>)
    requires j < |fs| - 1 && SharesAt(fs[..|fs| - 1], front, j, share)
    ensures SharesAt(fs, front + last, j, share)
  {
    CountsFront(fs, j);
    var lo := Sum(Counts(fs)[..j]);
    SliceOfSum(front, last, lo, lo + |share|);
  }

  lemma {:induction false} UnpackedShare(fs: seq<Field>, body: bytes, j: nat)
    requires |body| == TotalLength(fs) && j < |fs|
    ensures SharesAt(fs, UnpackAll(fs, body), j, UnpackFlat(fs[j], FieldSlice(fs, body, j)))
    decreases |fs|
  {
    var n, cut := |fs| - 1, TotalLength(fs[..|fs| - 1]);
    UnpackSplits(fs, body);
    var front, last := UnpackAll(fs[..n], body[..cut]), UnpackFlat(fs[n], body[cut..]);
    if j == n {
      FieldSliceLast(fs, body);
      ShareOfLast(fs, front, last);
    } else {
      FieldSliceFront(fs, body, j);
      UnpackedShare(fs[..n], body[..cut], j);
      ShareOfFront(fs, front, last, j, UnpackFlat(fs[j], FieldSlice(fs, body, j)));
    }
  }

  lemma {:induction false} PackedShare(fs: seq<Field>, vs: seq<Value>, j: nat)
    requires |fs| == |vs| && PackAll(fs, vs).Some? && j < |fs|
    ensures PackField(fs[j], vs[j]) == Some(FieldSlice(fs, PackAll(fs, vs).value, j))
    decreases |fs|
  {
    var n := |fs| - 1;
    var body := PackAll(fs, vs).value;
    if j == n {
      FieldSliceLast(fs, body);
    } else {
      FieldSliceFront(fs, body, j);
      assert body[..TotalLength(fs[..n])] == PackAll(fs[..n], vs[..n]).value;
      PackedShare(fs[..n], vs[..n], j);
    }
  }

  lemma {:induction false} PackAllSucceeds(fs: seq<Field>, vs: seq<Value>)
    requires |fs| == |vs| && forall j :: 0 <= j < |fs| ==> PackField(fs[j], vs[j]).Some?
    ensures PackAll(fs, vs).Some?
    decreases |fs|
  {
    if fs != [] {
      PackAllSucceeds(fs[..|fs| - 1], vs[..|fs| - 1]);
    }
  }

  /** The attribute packed for a declared field is its own value. */
  lemma OwnAttribute(def: MsgDef, values: seq<Value>, i: nat)
    requires def.Unambiguous() && |values| == |def.fields| && i < |def.fields|
    ensures |def.Ordered()| == |def.fields| && OrderMap(def)[i] < |def.fields|
    ensures def.Ordered()[OrderMap(def)[i]] == def.fields[i] && WireValues(def, values)[OrderMap(def)[i]] == values[i]
  {
    OrderMapIsPermutation(def);
    IndexIs(Names(def.fields), i);
  }

  /** struct.pack accepts a message exactly when it accepts every field by itself. */
  lemma PackSucceeds(def: MsgDef, values: seq<Value>)
    requires def.Unambiguous() && |values| == |def.fields|
    ensures Pack(def, values).Some? <==> forall i :: 0 <= i < |values| ==> PackField(def.fields[i], values[i]).Some?
  {
    var os, ws, om := def.Ordered(), WireValues(def, values), OrderMap(def);
    OrderMapIsPermutation(def);
    if Pack(def, values).Some? {
      forall i | 0 <= i < |values| ensures PackField(def.fields[i], values[i]).Some? {
        OwnAttribute(def, values, i);
        PackedShare(os, ws, om[i]);
      }
    } else if forall i :: 0 <= i < |values| ==> PackField(def.fields[i], values[i]).Some? {
      forall j | 0 <= j < |os| ensures PackField(os[j], ws[j]).Some? {
        assert j in om;
        var i :| 0 <= i < |om| && om[i] == j;
        OwnAttribute(def, values, i);
      }
      PackAllSucceeds(os, ws);
    }
  }

  /** Un-sorting undoes the sort: entry i of the decoded list is built from field i's own bytes. */
  lemma UnpackFinds(def: MsgDef, body: bytes, i: nat)
    requires def.Unambiguous() && |body| == TotalLength(def.Ordered()) && i < |def.fields|
    ensures |def.Ordered()| == |def.fields| && OrderMap(def)[i] < |def.fields|
    ensures def.Ordered()[OrderMap(def)[i]] == def.fields[i]
    ensures Unpack(def, body)[i] ==
            Regrouped(def.fields[i], UnpackFlat(def.fields[i], FieldSlice(def.Ordered(), body, OrderMap(def)[i])))
  {
    OrderMapIsPermutation(def);
    var os, j := def.Ordered(), OrderMap(def)[i];
    ListEntryIsShare(os, body, j);
  }

  lemma ListEntryIsShare(fs: seq<Field>, body: bytes, j: nat)
    requires |body| == TotalLength(fs) && j < |fs|
    ensures Terminated(ListEntry(Counts(fs), j, UnpackAll(fs, body)))
         == Regrouped(fs[j], UnpackFlat(fs[j], FieldSlice(fs, body, j)))
  {
    UnpackedShare(fs, body, j);
    TextOnlyAlone(fs[j], FieldSlice(fs, body, j));
    EntryOfShare(fs, j, UnpackAll(fs, body), UnpackFlat(fs[j], FieldSlice(fs, body, j)));
  }

  lemma EntryOfShare(fs: seq<Field>, j: nat, t: seq<Atom>, share: seq<Atom>)
    requires j < |fs| && |t| == Sum(Counts(fs)) && |share| == FlatCount(fs[j])
    requires SharesAt(fs, t, j, share) && (share[0].Text? ==> |share| == 1)
    ensures Terminated(ListEntry(Counts(fs), j, t)) == Regrouped(fs[j], share)
  {
    var tip := Sum(Counts(fs)[..j]);
    assert t[tip] == t[tip..tip + |share|][0];
    SumOfOnes(Counts(fs), j);
  }

  /** A string is always a field's only item in the flat tuple. */
  lemma TextOnlyAlone(f: Field, bs: bytes)
    requires |bs| == WireLength(f)
    ensures UnpackFlat(f, bs)[0].Text? ==> FlatCount(f) == 1
  {
  }

  /**
   The field half of the codec's central law: whatever values struct.pack accepts, unpacking the payload
   gives them back in declaration order, normalised.
   */
  lemma FieldsRoundTrip(def: MsgDef, values: seq<Value>)
    requires def.Unambiguous() && |values| == |def.fields| && Pack(def, values).Some?
    ensures forall i :: 0 <= i < |values| ==>
              Unpack(def, Pack(def, values).value)[i] == Normal(def.fields[i], values[i])
  {
    var body := Pack(def, values).value;
    var os, ws := def.Ordered(), WireValues(def, values);
    OrderMapIsPermutation(def);
    forall i | 0 <= i < |values| ensures Unpack(def, body)[i] == Normal(def.fields[i], values[i]) {
      var j := OrderMap(def)[i];
      UnpackFinds(def, body, i);
      PackedShare(os, ws, j);
      OwnAttribute(def, values, i);
      FieldRoundTrip(def.fields[i], values[i]);
    }
  }

  // ----- The loops of decode

  /** The loop for a message without arrays. */
  method UnsortScalars(orderMap: seq<nat>, lenMap: seq<nat>, t: seq<Atom>) returns (tlist: seq<Value>)
    requires |orderMap| == |lenMap| == |t| == Sum(lenMap)
    requires forall i :: 0 <= i < |orderMap| ==> orderMap[i] < |lenMap|
    requires forall k :: 0 <= k < |lenMap| ==> lenMap[k] >= 1
    ensures |tlist| == |orderMap|
    ensures forall i :: 0 <= i < |tlist| ==> tlist[i] == ListEntry(lenMap, orderMap[i], t)
  {
    tlist := [];
    for i := 0 to |t|
      invariant |tlist| == i
      invariant forall k :: 0 <= k < i ==> tlist[k] == ListEntry(lenMap, orderMap[k], t)
    {
      tlist := tlist + [One(t[orderMap[i]])];
    }
  }

  /** The loop for a message with arrays. */
  method UnsortArrays(orderMap: seq<nat>, lenMap: seq<nat>, t: seq<Atom>) returns (tlist: seq<Value>)
    requires |orderMap| == |lenMap| && |t| == Sum(lenMap) != |lenMap|
    requires forall i :: 0 <= i < |orderMap| ==> orderMap[i] < |lenMap|
    requires forall k :: 0 <= k < |lenMap| ==> lenMap[k] >= 1
    ensures |tlist| == |orderMap|
    ensures forall i :: 0 <= i < |tlist| ==> tlist[i] == ListEntry(lenMap, orderMap[i], t)
  {
    tlist := [];
    assert lenMap[..|lenMap|] == lenMap;
    for i := 0 to |orderMap|
      invariant |tlist| == i
      invariant forall k :: 0 <= k < i ==> tlist[k] == ListEntry(lenMap, orderMap[k], t)
    {
      var order := orderMap[i];
      var l := lenMap[order];
      var tip := Sum(lenMap[..order]);
      SumPrefix(lenMap, order, |lenMap|);
      var field := t[tip];
      var entry := if l == 1 || field.Text? then One(field) else Many(t[tip..tip + l]);
      assert entry == ListEntry(lenMap, order, t);
      tlist := tlist + [entry];
    }
  }

  /** The last loop: strings end at their first NUL. */
  method TerminateAll(entries: seq<Value>) returns (values: seq<Value>)
    ensures |values| == |entries|
    ensures forall k :: 0 <= k < |values| ==> values[k] == Terminated(entries[k])
  {
    values := entries;
    for i := 0 to |values|
      invariant |values| == |entries|
      invariant forall k :: 0 <= k < i ==> values[k] == Terminated(entries[k])
      invariant forall k :: i <= k < |values| ==> values[k] == entries[k]
    {
      values := values[i := Terminated(values[i])];
    }
  }

  /** Un-sorting: the loop for the kind of message at hand. */
  method Unsort(orderMap: seq<nat>, lenMap: seq<nat>, t: seq<Atom>) returns (tlist: seq<Value>)
    requires |orderMap| == |lenMap| && |t| == Sum(lenMap)
    requires forall i :: 0 <= i < |orderMap| ==> orderMap[i] < |lenMap|
    requires forall k :: 0 <= k < |lenMap| ==> lenMap[k] >= 1
    ensures |tlist| == |orderMap|
    ensures forall i :: 0 <= i < |tlist| ==> tlist[i] == ListEntry(lenMap, orderMap[i], t)
  {
    if Sum(lenMap) == |lenMap| {
      tlist := UnsortScalars(orderMap, lenMap, t);
    } else {
      tlist := UnsortArrays(orderMap, lenMap, t);
    }
  }

  /** The unpacking part of decode: struct.unpack, un-sorting, string termination. */
  method DecodeFields(def: MsgDef, body: bytes) returns (values: seq<Value>)
    requires def.Unambiguous() && |body| == TotalLength(def.Ordered())
    ensures values == Unpack(def, body)
  {
    OrderMapIsPermutation(def);
    var t := UnpackAll(def.Ordered(), body);
    var tlist := Unsort(OrderMap(def), Counts(def.Ordered()), t);
    values := TerminateAll(tlist);
    assert forall i :: 0 <= i < |values| ==> values[i] == Unpack(def, body)[i];
  }
}
