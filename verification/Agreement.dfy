/**
 The two parsers side by side: the messages each makes of a stream of valid version 1 frames among noise, and exactly
 when the two messages of a frame compare equal.
 */
module Agreement {
  import opened Bytes
  import opened Layout
  import opened Wire
  import opened Frame
  import opened Stream
  import opened Native
  import Payload

  /** A stretch of a version 1 stream. */
  datatype Item = Sent(f: bytes) | Noise(b: byte)

  ghost predicate ValidItem(link: Link, it: Item) {
    match it
    case Sent(f) => ValidFrame(link, f) && Sized(f)
    case Noise(b) => !IsMarker(b)
  }

  function ItemBytes(it: Item): bytes {
    match it
    case Sent(f) => f
    case Noise(b) => [b]
  }

  function StreamOf(items: seq<Item>): bytes
    decreases |items|
  {
    if items == [] then [] else ItemBytes(items[0]) + StreamOf(items[1..])
  }

  /** The frames of a stream, in order. */
  function FramesOf(items: seq<Item>): seq<bytes>
    decreases |items|
  {
    if items == [] then []
    else (if items[0].Sent? then [items[0].f] else []) + FramesOf(items[1..])
  }

  /** The messages left when BAD_DATA is filtered out. */
  function Goods(rs: seq<Received>): seq<Msg>
    decreases |rs|
  {
    if rs == [] then [] else (if rs[0].Good? then [rs[0].msg] else []) + Goods(rs[1..])
  }

  // ----- The Python parser

  lemma PythonReadsOne(link: Network, sg: Signing, f: bytes)
    requires ValidFrame(link, f) && Sized(f) && sg.secretKey.None?
    ensures DecodeFrame(link, sg, f) == (Ok(Build(link, f, false)), sg)
  {
  }

  function PieceOf(it: Item): Piece
    requires it.Sent? ==> |it.f| >= 3
  {
    match it
    case Sent(f) => Packet(f)
    case Noise(b) => Junk(b)
  }

  lemma FirstItem(link: Link, it: Item, rest: bytes)
    requires ValidItem(link, it)
    ensures NextPiece(ItemBytes(it) + rest) == Some(PieceOf(it))
    ensures After(ItemBytes(it) + rest) == rest
  {
    if it.Sent? {
      assert (it.f + rest)[..|it.f|] == it.f;
    }
  }

  lemma ReadItem(link: Network, sg: Signing, it: Item)
    requires ValidItem(link, it) && sg.secretKey.None?
    ensures ReadPiece(DecoderOf(link), sg, PieceOf(it)).1 == sg
    ensures Goods([ReadPiece(DecoderOf(link), sg, PieceOf(it)).0])
         == if it.Sent? then [Build(link, it.f, false)] else []
  {
    if it.Sent? {
      PythonReadsOne(link, sg, it.f);
    }
    assert Goods([]) == [];
  }

  lemma GoodsCons(r: Received, rs: seq<Received>)
    ensures Goods([r] + rs) == Goods([r]) + Goods(rs)
  {
    assert ([r] + rs)[1..] == rs;
    assert [r][1..] == [];
  }

  lemma ReadOnward(link: Network, sg: Signing, it: Item, rest: bytes)
    requires ValidItem(link, it) && sg.secretKey.None?
    ensures var (got, sg', end) := ReadStream(DecoderOf(link), sg, ItemBytes(it) + rest);
            var (later, sg'', end') := ReadStream(DecoderOf(link), sg, rest);
            && sg' == sg'' && end == end'
            && Goods(got) == (if it.Sent? then [Build(link, it.f, false)] else []) + Goods(later)
  {
    FirstItem(link, it, rest);
    SplitFirst(ItemBytes(it) + rest);
    ReadCons(DecoderOf(link), sg, PieceOf(it), Split(rest).0);
    ReadItem(link, sg, it);
    GoodsCons(ReadPiece(DecoderOf(link), sg, PieceOf(it)).0, ReadPieces(DecoderOf(link), sg, Split(rest).0).0);
  }

  ghost predicate AllValid(link: Link, items: seq<Item>) {
    forall k :: 0 <= k < |items| ==> ValidItem(link, items[k])
  }

  /** Two lists of one length, related item by item. */
  ghost predicate Paired<A(!new), B(!new)>(r: (A, B) -> bool, xs: seq<A>, ys: seq<B>) {
    |xs| == |ys| && forall k :: 0 <= k < |ys| ==> r(xs[k], ys[k])
  }

  lemma PairedCons<A(!new), B(!new)>(r: (A, B) -> bool, x: A, y: B, xs: seq<A>, ys: seq<B>)
    requires r(x, y) && Paired(r, xs, ys)
    ensures Paired(r, [x] + xs, [y] + ys)
  {
  }

  /** The message is the one built from this valid frame. */
  ghost function MessageOf(link: Network): (Msg, bytes) -> bool {
    (m: Msg, f: bytes) => ValidFrame(link, f) && Sized(f) && m == Build(link, f, false)
  }

  /** One message per frame, in order, whatever the noise. */
  lemma {:induction false} PythonReads(link: Network, sg: Signing, items: seq<Item>)
    requires AllValid(link, items) && sg.secretKey.None?
    ensures var (got, sg', rest) := ReadStream(DecoderOf(link), sg, StreamOf(items));
            sg' == sg && rest == [] && Paired(MessageOf(link), Goods(got), FramesOf(items))
    decreases |items|
  {
    if items != [] {
      var it, rest := items[0], StreamOf(items[1..]);
      var later := Goods(ReadStream(DecoderOf(link), sg, rest).0);
      ReadOnward(link, sg, it, rest);
      PythonReads(link, sg, items[1..]);
      if it.Sent? {
        PairedCons(MessageOf(link), Build(link, it.f, false), it.f, later, FramesOf(items[1..]));
      } else {
        assert [] + later == later && [] + FramesOf(items[1..]) == FramesOf(items[1..]);
      }
    }
  }

  // ----- The native parser

  ghost predicate AtRest(m: Machine) { (m.state.Idle? || m.state.Uninit?) && Sound(m) }

  lemma NativeItem(link: Link, m: Machine, it: Item, rest: bytes) returns (n: Machine)
    requires ValidItem(link, it) && UsesX25(link) && AtRest(m)
    ensures AtRest(n) && (it.Sent? ==> Completed(n, it.f))
    ensures Run(link.dialect, m, ItemBytes(it) + rest).0
         == (if it.Sent? then [n] else []) + Run(link.dialect, n, rest).0
  {
    if it.Sent? {
      n := RunFrame(link, m, it.f, rest);
    } else {
      n := m;
      assert ([it.b] + rest)[1..] == rest;
      RunStep(link.dialect, m, [it.b] + rest, false, m);
    }
  }

  /** The machine has just completed this frame. */
  ghost function MachineOf(): (Machine, bytes) -> bool {
    (m: Machine, f: bytes) => Sized(f) && Completed(m, f)
  }

  /** One completed machine per frame, in order. */
  lemma {:induction false} NativeReads(link: Link, m: Machine, items: seq<Item>)
    requires AllValid(link, items) && UsesX25(link) && AtRest(m)
    ensures Paired(MachineOf(), Run(link.dialect, m, StreamOf(items)).0, FramesOf(items))
    decreases |items|
  {
    if items != [] {
      var n := NativeItem(link, m, items[0], StreamOf(items[1..]));
      var later := Run(link.dialect, n, StreamOf(items[1..])).0;
      NativeReads(link, n, items[1..]);
      if items[0].Sent? {
        PairedCons(MachineOf(), n, items[0].f, later, FramesOf(items[1..]));
      } else {
        assert [] + later == later && [] + FramesOf(items[1..]) == FramesOf(items[1..]);
      }
    }
  }

  // ----- Messages compared

  /** msg_to_py: the object the native parser hands back, its attributes in declaration order. */
  datatype NativeMsg = NativeMsg(def: MsgDef, seqNo: byte, sys: byte, comp: byte, values: seq<Value>, buf: bytes)

  /** The attributes that the native parser makes of a payload. */
  function NativeValues(def: MsgDef, body: bytes): (r: seq<Value>)
    requires def.Unambiguous() && |body| == TotalLength(def.Ordered())
    ensures |r| == |def.fields|
  {
    OrderMapIsPermutation(def);
    seq(|def.fields|, i requires 0 <= i < |def.fields| =>
      NativeValue(def.fields[i], Payload.FieldSlice(def.Ordered(), body, OrderMap(def)[i])))
  }

  function ToPython(link: Network, m: Machine): (r: NativeMsg)
    requires m.msgid in link.dialect && TotalLength(link.dialect[m.msgid].Ordered()) <= PAYLOAD_ROOM
  {
    var def := link.dialect[m.msgid];
    NativeMsg(def, m.seqNo, m.sysid, m.compid, NativeValues(def, m.payload[..TotalLength(def.Ordered())]), m.raw)
  }

  // ----- Equality as Python sees it

  /** A floating-point pattern, low byte first, whose exponent is all ones and whose mantissa is not zero. */
  predicate IsNaN(bits: bytes) {
    if |bits| == 4 then
      bits[3] % 128 == 127 && bits[2] >= 128 && (bits[2] != 128 || bits[1] != 0 || bits[0] != 0)
    else
      && |bits| == 8 && bits[7] % 128 == 127 && bits[6] >= 240
      && (bits[6] != 240 || exists k :: 0 <= k < 6 && bits[k] != 0)
  }

  /** Zero of either sign. */
  predicate IsZero(bits: bytes) {
    bits != [] && bits[|bits| - 1] % 128 == 0 && forall k :: 0 <= k < |bits| - 1 ==> bits[k] == 0
  }

  /** == of two floats of one size. */
  predicate SameFloat(a: bytes, b: bytes) {
    !IsNaN(a) && !IsNaN(b) && (a == b || (IsZero(a) && IsZero(b)))
  }

  /** == of two items. */
  predicate SameItem(a: Atom, b: Atom) {
    if a.Raw? && b.Raw? then SameFloat(a.bits, b.bits) else a == b
  }

  /** == of two attributes: a list is never equal to a single item. */
  predicate SameValue(v: Value, w: Value) {
    match (v, w)
    case (One(a), One(b)) => SameItem(a, b)
    case (Many(xs), Many(ys)) => |xs| == |ys| && forall k :: 0 <= k < |xs| ==> SameItem(xs[k], ys[k])
    case _ => false
  }

  /** == of the attributes, one by one. */
  predicate SameValues(vs: seq<Value>, ws: seq<Value>) {
    |vs| == |ws| && forall i :: 0 <= i < |vs| ==> SameValue(vs[i], ws[i])
  }

  /** __eq__ of the template. */
  predicate SameMessage(n: NativeMsg, p: Msg) {
    && n.def == p.def && n.seqNo == p.header.seqNo && n.sys == p.header.sys && n.comp == p.header.comp
    && SameValues(n.values, p.values)
  }

  /** A field that holds a NaN, which is not equal to itself. */
  predicate HoldsNaN(f: Field, bs: bytes)
    requires |bs| == WireLength(f)
  {
    IsFloating(f.ftype) &&
    exists k :: 0 <= k < |UnpackFlat(f, bs)| && UnpackFlat(f, bs)[k].Raw? && IsNaN(UnpackFlat(f, bs)[k].bits)
  }

  lemma {:induction false} AtomKinds(t: FieldType, bs: bytes, n: nat)
    requires |bs| == n * TypeLength(t)
    ensures forall k :: 0 <= k < n ==> (UnpackAtoms(t, bs, n)[k].Raw? <==> IsFloating(t))
    decreases n
  {
    if n > 0 {
      CutOne(n, TypeLength(t));
      AtomKinds(t, bs[TypeLength(t)..], n - 1);
    }
  }

  /** An attribute equals itself unless it holds a NaN. */
  lemma EqualToItself(f: Field, bs: bytes)
    requires |bs| == WireLength(f)
    ensures SameValue(PythonValue(f, bs), PythonValue(f, bs)) <==> !HoldsNaN(f, bs)
  {
    var flat := UnpackFlat(f, bs);
    if !(f.ftype.Char? && f.arrayLength != 0) {
      AtomKinds(f.ftype, bs, |flat|);
    }
    if |flat| == 1 && HoldsNaN(f, bs) {
      assert flat[0].Raw? && IsNaN(flat[0].bits);
    }
  }

  predicate NoFloats(v: Value) {
    match v
    case One(a) => !a.Raw?
    case Many(xs) => forall k :: 0 <= k < |xs| ==> !xs[k].Raw?
  }

  lemma SameWithoutFloats(v: Value, w: Value)
    requires NoFloats(w)
    ensures SameValue(v, w) <==> v == w
  {
  }

  /** Numbers that differ, and a list and a single item, are never equal. */
  lemma DisagreementIsSeen(f: Field, bs: bytes)
    requires |bs| == WireLength(f) && Disagrees(f, bs)
    ensures !SameValue(NativeValue(f, bs), PythonValue(f, bs))
  {
    if !(f.arrayLength == 1 && !f.ftype.Char?) {
      ValuesAgreeExactly(f, bs);
      AtomKinds(f.ftype, bs, if f.arrayLength == 0 then 1 else f.arrayLength);
      SameWithoutFloats(NativeValue(f, bs), PythonValue(f, bs));
    }
  }

  /** A field that both parsers read the same, and that is no NaN. */
  predicate Comparable(f: Field, bs: bytes)
    requires |bs| == WireLength(f)
  {
    !Disagrees(f, bs) && !HoldsNaN(f, bs)
  }

  /** What the two parsers make of one field compares equal exactly when they read the same and it is no NaN. */
  lemma FieldCompares(f: Field, bs: bytes)
    requires |bs| == WireLength(f)
    ensures SameValue(NativeValue(f, bs), PythonValue(f, bs)) <==> Comparable(f, bs)
  {
    if Disagrees(f, bs) {
      DisagreementIsSeen(f, bs);
    } else {
      ValuesAgreeExactly(f, bs);
      EqualToItself(f, bs);
    }
  }

  /** Comparable, for declared field i of a payload. */
  ghost predicate ComparableAt(def: MsgDef, body: bytes, i: nat)
    requires def.Unambiguous() && |body| == TotalLength(def.Ordered()) && i < |def.fields|
  {
    OrderMapIsPermutation(def);
    Comparable(def.fields[i], Payload.FieldSlice(def.Ordered(), body, OrderMap(def)[i]))
  }

  ghost predicate AllComparable(def: MsgDef, body: bytes)
    requires def.Unambiguous() && |body| == TotalLength(def.Ordered())
  {
    forall i :: 0 <= i < |def.fields| ==> ComparableAt(def, body, i)
  }

  /** No field of the frame is one the two parsers read differently, and none holds a NaN. */
  ghost predicate NoDisagreement(link: Link, f: bytes)
    requires ValidFrame(link, f) && Sized(f)
  {
    AllComparable(link.dialect[f[5]], f[6..|f| - 2])
  }

  lemma FieldsCompare(def: MsgDef, body: bytes, i: nat)
    requires def.Unambiguous() && |body| == TotalLength(def.Ordered()) && i < |def.fields|
    ensures |def.Ordered()| == |def.fields| && OrderMap(def)[i] < |def.fields|
    ensures def.Ordered()[OrderMap(def)[i]] == def.fields[i]
    ensures var bs := Payload.FieldSlice(def.Ordered(), body, OrderMap(def)[i]);
            SameValue(NativeValue(def.fields[i], bs), Payload.Unpack(def, body)[i]) <==> ComparableAt(def, body, i)
  {
    Payload.UnpackFinds(def, body, i);
    FieldCompares(def.fields[i], Payload.FieldSlice(def.Ordered(), body, OrderMap(def)[i]));
  }

  /** The payload is read whole by both parsers. */
  lemma SamePayload(link: Network, m: Machine, f: bytes)
    requires ValidFrame(link, f) && Sized(f) && Completed(m, f)
    ensures TotalLength(link.dialect[f[5]].Ordered()) == |f| - 8
    ensures m.payload[..|f| - 8] == f[6..|f| - 2] == Fit(f[6..|f| - 2], |f| - 8)
    ensures ParseHeader(f).msgId == f[5] && TailLen(ParseHeader(f)) == 2
  {
  }

  lemma NativeMessage(link: Network, m: Machine, f: bytes)
    requires ValidFrame(link, f) && Sized(f) && Completed(m, f)
    ensures var def, body := link.dialect[f[5]], f[6..|f| - 2];
            && |body| == TotalLength(def.Ordered())
            && ToPython(link, m) == NativeMsg(def, f[2], f[3], f[4], NativeValues(def, body), f)
  {
    SamePayload(link, m, f);
  }

  lemma PythonMessage(link: Network, f: bytes)
    requires ValidFrame(link, f) && Sized(f)
    ensures var def, body, p := link.dialect[f[5]], f[6..|f| - 2], Build(link, f, false);
            && |body| == TotalLength(def.Ordered())
            && p.def == def && p.header.seqNo == f[2] && p.header.sys == f[3] && p.header.comp == f[4]
            && p.values == Payload.Unpack(def, body) && p.buf == f
  {
    var body := f[6..|f| - 2];
    assert Fit(body, |body|) == body;
  }

  lemma ValuesCompare(def: MsgDef, body: bytes)
    requires def.Unambiguous() && |body| == TotalLength(def.Ordered())
    ensures SameValues(NativeValues(def, body), Payload.Unpack(def, body))
       <==> AllComparable(def, body)
  {
    var vs, ws := NativeValues(def, body), Payload.Unpack(def, body);
    forall i: nat | i < |def.fields| ensures SameValue(vs[i], ws[i]) == ComparableAt(def, body, i) {
      FieldsCompare(def, body, i);
    }
  }

  /** The two messages of one frame compare equal exactly when no field is read differently and none holds a NaN. */
  lemma MessagesCompare(link: Network, m: Machine, f: bytes)
    requires ValidFrame(link, f) && Sized(f) && Completed(m, f)
    ensures SameMessage(ToPython(link, m), Build(link, f, false)) <==> NoDisagreement(link, f)
    ensures ToPython(link, m).buf == Build(link, f, false).buf == f
  {
    NativeMessage(link, m, f);
    PythonMessage(link, f);
    ValuesCompare(link.dialect[f[5]], f[6..|f| - 2]);
  }

  /** Both parsers read this frame, and their messages are equal exactly where no field stands in the way. */
  ghost predicate Agree(link: Network, m: Machine, p: Msg, f: bytes) {
    && ValidFrame(link, f) && Sized(f) && Completed(m, f)
    && p == Build(link, f, false)
    && ToPython(link, m).buf == p.buf == f
    && (SameMessage(ToPython(link, m), p) <==> NoDisagreement(link, f))
  }

  /**
   On a stream of valid version 1 frames among bytes that start no frame, both parsers return one message per
   frame in order, made of the same bytes, and the messages compare equal exactly where no field is read differently
   and none holds a NaN.
   */
  lemma ParsersAgree(link: Network, sg: Signing, m: Machine, items: seq<Item>)
    requires AllValid(link, items) && UsesX25(link) && sg.secretKey.None? && AtRest(m)
    ensures var native := Run(link.dialect, m, StreamOf(items)).0;
            var python := Goods(ReadStream(DecoderOf(link), sg, StreamOf(items)).0);
            var fs := FramesOf(items);
            && |native| == |python| == |fs|
            && forall k :: 0 <= k < |fs| ==> Agree(link, native[k], python[k], fs[k])
  {
    PythonReads(link, sg, items);
    NativeReads(link, m, items);
    var native := Run(link.dialect, m, StreamOf(items)).0;
    var python := Goods(ReadStream(DecoderOf(link), sg, StreamOf(items)).0);
    var fs := FramesOf(items);
    forall k | 0 <= k < |fs| ensures Agree(link, native[k], python[k], fs[k]) {
      BothRead(link, native[k], python[k], fs[k]);
    }
  }

  lemma BothRead(link: Network, m: Machine, p: Msg, f: bytes)
    requires MachineOf()(m, f) && MessageOf(link)(p, f)
    ensures Agree(link, m, p, f)
  {
    MessagesCompare(link, m, f);
  }

  /** A quiet NaN in a float field: both parsers read the same pattern, and it is not equal to itself. */
  lemma NaNIsUnequal(f: Field)
    requires f.ftype.Float? && f.arrayLength == 0
    ensures var bs := [0, 0, 0xC0, 0x7F];
            && NativeValue(f, bs) == PythonValue(f, bs) == One(Raw(bs))
            && !SameValue(NativeValue(f, bs), PythonValue(f, bs)) && !Comparable(f, bs)
  {
    var bs: bytes := [0, 0, 0xC0, 0x7F];
    assert bs[..4] == bs && IsNaN(bs);
    assert UnpackFlat(f, bs) == [Raw(bs)];
    FieldCompares(f, bs);
  }
}
