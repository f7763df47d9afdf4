/** Extension fields: what two programs with different versions of one message definition read from each other. */
module Extensions {
  import opened Bytes
  import opened Layout
  import opened Wire
  import opened Frame
  import Payload

  // ----- Maps agree on the common part

  lemma IndexInPrefix(a: seq<string>, b: seq<string>, n: string)
    requires n in a
    ensures IndexOf(a + b, n) == IndexOf(a, n) < |a|
  {
    var i, j := IndexOf(a + b, n), IndexOf(a, n);
    assert (a + b)[j] == n;
  }

  lemma NamesConcat(a: seq<Field>, b: seq<Field>)
    ensures Names(a + b) == Names(a) + Names(b)
  {
  }

  lemma OlderUnambiguous(newer: MsgDef, older: MsgDef)
    requires Extends(newer, older) && newer.Unambiguous()
    ensures older.Unambiguous()
  {
    var a, b := Names(newer.fields), Names(older.fields);
    assert forall i :: 0 <= i < |b| ==> b[i] == a[i];
  }

  lemma NewNameIsNew(newer: MsgDef, older: MsgDef, i: nat)
    requires Extends(newer, older) && newer.Unambiguous() && |older.fields| <= i < |newer.fields|
    ensures newer.fields[i].name !in Names(older.fields)
  {
    forall k | 0 <= k < |older.fields| ensures Names(older.fields)[k] != newer.fields[i].name {
      assert Names(newer.fields)[k] != Names(newer.fields)[i];
    }
  }

  /** Common fields keep their place on the wire. */
  lemma CommonPlaces(newer: MsgDef, older: MsgDef, i: nat)
    requires Extends(newer, older) && newer.Unambiguous() && i < |older.fields|
    ensures OrderMap(newer)[i] == OrderMap(older)[i] < |older.Ordered()|
  {
    OlderUnambiguous(newer, older);
    ExtensionsKeepLayout(newer, older);
    OrderMapIsPermutation(older);
    var os, ext := older.Ordered(), newer.fields[|older.fields|..];
    NamesConcat(os, ext);
    var j := OrderMap(older)[i];
    assert Names(os)[j] == newer.fields[i].name;
    IndexInPrefix(Names(os), Names(ext), newer.fields[i].name);
  }

  /** New fields come after all the common ones. */
  lemma NewPlaces(newer: MsgDef, older: MsgDef, i: nat)
    requires Extends(newer, older) && newer.Unambiguous() && |older.fields| <= i < |newer.fields|
    ensures |older.Ordered()| <= OrderMap(newer)[i] < |newer.Ordered()|
  {
    ExtensionsKeepLayout(newer, older);
    OrderMapIsPermutation(newer);
    NewNameIsNew(newer, older, i);
    if OrderMap(newer)[i] < |older.Ordered()| {
      NameIsDeclared(older, OrderMap(newer)[i]);
    }
  }

  lemma AttributeAgrees(newer: MsgDef, older: MsgDef, values: seq<Value>, name: string)
    requires Extends(newer, older) && |values| == |newer.fields| && name in Names(older.fields)
    ensures Payload.Attribute(newer, values, name) == Payload.Attribute(older, values[..|older.fields|], name)
  {
    var n := |older.fields|;
    assert newer.fields == older.fields + newer.fields[n..];
    NamesConcat(older.fields, newer.fields[n..]);
    IndexInPrefix(Names(older.fields), Names(newer.fields[n..]), name);
  }

  /** The attributes of the common fields, in wire order. */
  lemma WireValuesAgree(newer: MsgDef, older: MsgDef, values: seq<Value>)
    requires Extends(newer, older) && |values| == |newer.fields|
    ensures |older.Ordered()| <= |newer.Ordered()|
    ensures Payload.WireValues(newer, values)[..|older.Ordered()|]
         == Payload.WireValues(older, values[..|older.fields|])
  {
    ExtensionsKeepLayout(newer, older);
    forall j | 0 <= j < |older.Ordered()|
      ensures Payload.WireValues(newer, values)[j] == Payload.WireValues(older, values[..|older.fields|])[j]
    {
      NameIsDeclared(older, j);
      AttributeAgrees(newer, older, values, older.Ordered()[j].name);
    }
  }

  lemma NameIsDeclared(def: MsgDef, j: nat)
    requires j < |def.Ordered()|
    ensures def.Ordered()[j].name in Names(def.fields)
  {
    OrderedIsPermutation(def);
    assert def.Ordered()[j] in multiset(def.fields);
    var i :| 0 <= i < |def.fields| && def.fields[i] == def.Ordered()[j];
    assert Names(def.fields)[i] == def.Ordered()[j].name;
  }

  lemma {:induction false} PackPrefix(fs: seq<Field>, vs: seq<Value>, i: nat)
    requires |fs| == |vs| && Payload.PackAll(fs, vs).Some? && i <= |fs|
    ensures Payload.PackAll(fs[..i], vs[..i]).Some?
    ensures TotalLength(fs[..i]) <= TotalLength(fs)
    ensures Payload.PackAll(fs, vs).value[..TotalLength(fs[..i])] == Payload.PackAll(fs[..i], vs[..i]).value
    decreases |fs|
  {
    var n := |fs| - 1;
    if i == |fs| {
      assert fs[..i] == fs && vs[..i] == vs;
    } else {
      PackPrefix(fs[..n], vs[..n], i);
      assert fs[..n][..i] == fs[..i] && vs[..n][..i] == vs[..i];
    }
  }

  /** The base part of a packed newer message is the packed older message. */
  lemma BasePart(newer: MsgDef, older: MsgDef, values: seq<Value>)
    requires Extends(newer, older) && newer.Unambiguous() && |values| == |newer.fields|
    requires Payload.Pack(newer, values).Some?
    ensures Payload.Pack(older, values[..|older.fields|]).Some?
    ensures Fit(Payload.Pack(newer, values).value, TotalLength(older.Ordered()))
         == Payload.Pack(older, values[..|older.fields|]).value
  {
    ExtensionsKeepLayout(newer, older);
    WireValuesAgree(newer, older, values);
    var k := |older.Ordered()|;
    assert newer.Ordered()[..k] == older.Ordered();
    PackPrefix(newer.Ordered(), Payload.WireValues(newer, values), k);
  }

  /** A field that was never sent decodes from zero bytes. */
  function ZeroValue(f: Field): Value {
    Regrouped(f, UnpackFlat(f, Zeros(WireLength(f))))
  }

  lemma CutZeros(n: nat, k: nat)
    requires k <= n
    ensures Zeros(n)[..k] == Zeros(k) && Zeros(n)[k..] == Zeros(n - k)
  {
  }

  lemma {:induction false} ZeroAtoms(t: FieldType, n: nat, k: nat)
    requires k < n
    ensures UnpackAtoms(t, Zeros(n * TypeLength(t)), n)[k] == UnpackAtom(t, Zeros(TypeLength(t)))
    decreases n
  {
    var size := TypeLength(t);
    CutOne(n, size);
    assert n * size - size == (n - 1) * size;
    CutZeros(n * size, size);
    if k > 0 {
      ZeroAtoms(t, n - 1, k - 1);
    }
  }

  lemma {:induction false} ZerosAreZero(n: nat)
    ensures FromLe(Zeros(n)) == 0
    decreases n
  {
    if n > 0 {
      ZerosAreZero(n - 1);
      assert Zeros(n)[1..] == Zeros(n - 1);
    }
  }

  /** An unsent number is 0, an unsent string is empty, an unsent list is a list of zeros. */
  lemma ZeroValueIsZero(f: Field)
    ensures f.ftype.Char? && f.arrayLength <= 1 ==> ZeroValue(f) == One(Text([]))
    ensures f.ftype.Char? && f.arrayLength > 1 ==> ZeroValue(f) == One(Text([]))
    ensures !f.ftype.Char? && f.arrayLength <= 1 ==>
              ZeroValue(f) == One(if IsFloating(f.ftype) then Raw(Zeros(TypeLength(f.ftype))) else Num(0))
    ensures !f.ftype.Char? && f.arrayLength > 1 ==>
              && ZeroValue(f).Many? && |ZeroValue(f).xs| == f.arrayLength
              && forall k :: 0 <= k < f.arrayLength ==>
                   ZeroValue(f).xs[k] == if IsFloating(f.ftype) then Raw(Zeros(TypeLength(f.ftype))) else Num(0)
  {
    ZerosAreZero(TypeLength(f.ftype));
    UntilNulUnique(Zeros(WireLength(f)), []);
    if f.arrayLength > 1 && !f.ftype.Char? {
      forall k | 0 <= k < f.arrayLength
        ensures ZeroValue(f).xs[k] == UnpackAtom(f.ftype, Zeros(TypeLength(f.ftype)))
      {
        ZeroAtoms(f.ftype, f.arrayLength, k);
      }
    } else if f.arrayLength <= 1 && !f.ftype.Char? {
      ZeroAtoms(f.ftype, 1, 0);
    } else if f.arrayLength == 0 {
      ZeroAtoms(f.ftype, 1, 0);
      UntilNulUnique(Zeros(TypeLength(f.ftype)), []);
    }
  }

  // ----- Reading across versions

  /** A field's bytes do not depend on what fields follow. */
  lemma CommonSlice(os: seq<Field>, ext: seq<Field>, body: bytes, j: nat)
    requires |body| == TotalLength(os + ext) && j < |os|
    ensures TotalLength(os) <= |body|
    ensures Payload.FieldSlice(os + ext, body, j) == Payload.FieldSlice(os, body[..TotalLength(os)], j)
  {
    TotalLengthConcat(os, ext);
    Payload.FieldEnds(os, j);
    assert (os + ext)[..j] == os[..j];
    Payload.SliceOfPrefix(body, TotalLength(os), Offset(os, j), Offset(os, j) + WireLength(os[j]));
  }

  /** The base bytes of a longer payload decode to the common fields, whatever follows them. */
  lemma CommonFieldsDecode(newer: MsgDef, older: MsgDef, body: bytes, i: nat)
    requires Extends(newer, older) && newer.Unambiguous() && older.Unambiguous()
    requires |body| == TotalLength(newer.Ordered()) && i < |older.fields|
    ensures TotalLength(older.Ordered()) <= |body|
    ensures Payload.Unpack(newer, body)[i] == Payload.Unpack(older, body[..TotalLength(older.Ordered())])[i]
  {
    ExtensionsKeepLayout(newer, older);
    CommonPlaces(newer, older, i);
    CommonSlice(older.Ordered(), newer.fields[|older.fields|..], body, OrderMap(older)[i]);
    Payload.UnpackFinds(newer, body, i);
    Payload.UnpackFinds(older, body[..TotalLength(older.Ordered())], i);
  }

  lemma ZeroSlice(fs: seq<Field>, body: bytes, j: nat, sent: nat)
    requires |body| == TotalLength(fs) && j < |fs| && sent <= Offset(fs, j)
    requires forall k :: sent <= k < |body| ==> body[k] == 0
    ensures Payload.FieldSlice(fs, body, j) == Zeros(WireLength(fs[j]))
  {
    Payload.FieldEnds(fs, j);
  }

  /** Fields beyond the bytes sent decode from zeros. */
  lemma NewFieldsDecode(newer: MsgDef, older: MsgDef, body: bytes, i: nat)
    requires Extends(newer, older) && newer.Unambiguous()
    requires |body| == TotalLength(newer.Ordered()) && |older.fields| <= i < |newer.fields|
    requires forall k :: TotalLength(older.Ordered()) <= k < |body| ==> body[k] == 0
    ensures Payload.Unpack(newer, body)[i] == ZeroValue(newer.fields[i])
  {
    var os := older.Ordered();
    NewPlaces(newer, older, i);
    Payload.UnpackFinds(newer, body, i);
    StartsAfter(newer, older, OrderMap(newer)[i]);
    ZeroSlice(newer.Ordered(), body, OrderMap(newer)[i], TotalLength(os));
  }

  lemma StartsAfter(newer: MsgDef, older: MsgDef, j: nat)
    requires Extends(newer, older) && |older.Ordered()| <= j <= |newer.Ordered()|
    ensures TotalLength(older.Ordered()) <= Offset(newer.Ordered(), j)
  {
    var os := older.Ordered();
    ExtensionsKeepLayout(newer, older);
    OffsetsGrow(newer.Ordered(), |os|, j);
    assert os[..|os|] == os;
  }

  lemma {:induction false} OffsetsGrow(fs: seq<Field>, i: nat, j: nat)
    requires i <= j <= |fs|
    ensures Offset(fs, i) <= Offset(fs, j)
    decreases j
  {
    if i < j {
      OffsetsGrow(fs, i, j - 1);
      TotalLengthPrefix(fs, j - 1);
    }
  }

  /** The two programs share everything but this one definition. */
  ghost predicate Speaks(link: Link, def: MsgDef) {
    link.Valid() && link.version.V2? && def.id in link.dialect && link.dialect[def.id] == def
  }

  ghost predicate SameChecksums(tx: Link, rx: Link) { UsesX25(tx) && UsesX25(rx) && tx.x25 == rx.x25 }

  /** A program with the older definition reads exactly its own fields from a newer packet. */
  lemma OldReadsNew(tx: Link, rx: Link, newer: MsgDef, older: MsgDef, sender: Sender, sg: Signing, values: seq<Value>,
                    ok: bool)
    requires Speaks(tx, newer) && Speaks(rx, older) && SameChecksums(tx, rx) && Extends(newer, older)
    requires |values| == |newer.fields| && PackFrame(tx, sender, sg, newer, values, false).Some?
    ensures FrameFault(rx, PackFrame(tx, sender, sg, newer, values, false).value.0).None?
    ensures Build(rx, PackFrame(tx, sender, sg, newer, values, false).value.0, ok).values
         == NormalAll(older, values[..|older.fields|])
  {
    var payload, frame, block := PackedShape(tx, sender, sg, newer, values, false);
    CrossReads(tx, rx, newer, older, sender, sg, payload, block, ok);
    BasePart(newer, older, values);
    Payload.FieldsRoundTrip(older, values[..|older.fields|]);
  }

  /** A program with the newer definition reads an older packet as the common fields and zeros. */
  lemma NewReadsOld(tx: Link, rx: Link, newer: MsgDef, older: MsgDef, sender: Sender, sg: Signing, values: seq<Value>,
                    ok: bool)
    requires Speaks(tx, older) && Speaks(rx, newer) && SameChecksums(tx, rx) && Extends(newer, older)
    requires |values| == |older.fields| && PackFrame(tx, sender, sg, older, values, false).Some?
    ensures FrameFault(rx, PackFrame(tx, sender, sg, older, values, false).value.0).None?
    ensures Build(rx, PackFrame(tx, sender, sg, older, values, false).value.0, ok).values
         == NormalAll(older, values) + NewZeros(newer, older)
  {
    var payload, frame, block := PackedShape(tx, sender, sg, older, values, false);
    CrossReads(tx, rx, older, newer, sender, sg, payload, block, ok);
    PaddedValues(newer, older, values);
  }

  /** The zero values of the fields only the newer definition has. */
  function NewZeros(newer: MsgDef, older: MsgDef): (r: seq<Value>)
    requires |older.fields| <= |newer.fields|
    ensures |r| == |newer.fields| - |older.fields|
  {
    seq(|newer.fields| - |older.fields|, i requires 0 <= i < |newer.fields| - |older.fields| =>
      ZeroValue(newer.fields[|older.fields| + i]))
  }

  lemma PaddedValues(newer: MsgDef, older: MsgDef, values: seq<Value>)
    requires Extends(newer, older) && newer.Unambiguous() && older.Unambiguous()
    requires |values| == |older.fields| && Payload.Pack(older, values).Some?
    ensures Payload.Unpack(newer, Fit(Payload.Pack(older, values).value, TotalLength(newer.Ordered())))
         == NormalAll(older, values) + NewZeros(newer, older)
  {
    ReadPadded(newer, older, Payload.Pack(older, values).value);
    UnpackIsNormal(older, values);
  }

  lemma UnpackIsNormal(def: MsgDef, values: seq<Value>)
    requires def.Unambiguous() && |values| == |def.fields| && Payload.Pack(def, values).Some?
    ensures Payload.Unpack(def, Payload.Pack(def, values).value) == NormalAll(def, values)
  {
    Payload.FieldsRoundTrip(def, values);
  }

  /** An older payload, zero-extended to the newer size. */
  lemma ReadPadded(newer: MsgDef, older: MsgDef, payload: bytes)
    requires Extends(newer, older) && newer.Unambiguous() && older.Unambiguous()
    requires |payload| == TotalLength(older.Ordered())
    ensures Payload.Unpack(newer, Fit(payload, TotalLength(newer.Ordered())))
         == Payload.Unpack(older, payload) + NewZeros(newer, older)
  {
    ExtensionsKeepLayout(newer, older);
    TotalLengthConcat(older.Ordered(), newer.fields[|older.fields|..]);
    var body := Fit(payload, TotalLength(newer.Ordered()));
    assert body[..|payload|] == payload;
    forall i | 0 <= i < |older.fields| ensures Payload.Unpack(newer, body)[i] == Payload.Unpack(older, payload)[i] {
      CommonFieldsDecode(newer, older, body, i);
    }
    forall i | |older.fields| <= i < |newer.fields|
      ensures Payload.Unpack(newer, body)[i] == ZeroValue(newer.fields[i])
    {
      NewFieldsDecode(newer, older, body, i);
    }
    Joined(newer, older, Payload.Unpack(newer, body), Payload.Unpack(older, payload));
  }

  lemma Joined(newer: MsgDef, older: MsgDef, got: seq<Value>, base: seq<Value>)
    requires |base| == |older.fields| <= |newer.fields| == |got|
    requires forall i :: 0 <= i < |base| ==> got[i] == base[i]
    requires forall i :: |base| <= i < |got| ==> got[i] == ZeroValue(newer.fields[i])
    ensures got == base + NewZeros(newer, older)
  {
    var zeros := NewZeros(newer, older);
    forall i | 0 <= i < |got| ensures got[i] == (base + zeros)[i] {
      if i >= |base| {
        assert zeros[i - |base|] == ZeroValue(newer.fields[i]);
      }
    }
  }

  /** A frame of one definition passes the checks of a program that has another with the same schema checksum. */
  lemma CrossPasses(tx: Link, rx: Link, sent: MsgDef, known: MsgDef, sender: Sender, sg: Signing, payload: bytes,
                    block: bytes)
    requires Speaks(tx, sent) && Speaks(rx, known) && SameChecksums(tx, rx)
    requires Extends(sent, known) || Extends(known, sent)
    requires PackUnsigned(tx, sender, sg, sent, payload, false).Some?
    requires |block| == if sg.signOutgoing then SIGNATURE_LEN else 0
    ensures var buf := PackUnsigned(tx, sender, sg, sent, payload, false).value + block;
            && FrameFault(rx, buf).None? && ParseHeader(buf).msgId == known.id && PayloadPart(buf) == Trim(payload)
  {
    if Extends(sent, known) {
      ExtensionsKeepLayout(sent, known);
    } else {
      ExtensionsKeepLayout(known, sent);
    }
    var h := SendHeader(sender, sg, sent, |Trim(payload)|);
    SameExtra(tx, rx, sent, known);
    assert Assemble(tx, true, h, sent, Trim(payload)) == Assemble(rx, true, h, known, Trim(payload));
    AssembledPasses(rx, true, h, known, Trim(payload), block);
  }

  lemma CrossReads(tx: Link, rx: Link, sent: MsgDef, known: MsgDef, sender: Sender, sg: Signing, payload: bytes,
                   block: bytes, ok: bool)
    requires Speaks(tx, sent) && Speaks(rx, known) && SameChecksums(tx, rx)
    requires Extends(sent, known) || Extends(known, sent)
    requires PackUnsigned(tx, sender, sg, sent, payload, false).Some?
    requires |block| == if sg.signOutgoing then SIGNATURE_LEN else 0
    ensures var buf := PackUnsigned(tx, sender, sg, sent, payload, false).value + block;
            && FrameFault(rx, buf).None?
            && Build(rx, buf, ok).values == Payload.Unpack(known, Fit(payload, TotalLength(known.Ordered())))
  {
    CrossPasses(tx, rx, sent, known, sender, sg, payload, block);
    TrimFits(payload, TotalLength(known.Ordered()));
    var buf := PackUnsigned(tx, sender, sg, sent, payload, false).value + block;
    assert ReadValues(rx, buf) == Payload.Unpack(known, Fit(PayloadPart(buf), TotalLength(known.Ordered())));
  }

  lemma SameExtra(tx: Link, rx: Link, sent: MsgDef, known: MsgDef)
    requires SameChecksums(tx, rx) && CrcExtra(sent) == CrcExtra(known)
    ensures tx.extra(sent) == rx.extra(known)
  {
  }
}
