/**
 Iridium SBD messages of _old_scs/iridium.py: information elements (tag, length, value), the message that is
 printed from them and the parser that is fed one byte at a time.
 */
module Iridium {
  import opened Bytes

  /** Values of MoHeaderIe.SessionStatus. */
  type SessionStatus = s: int | IsSessionStatus(s)

  predicate IsSessionStatus(s: int) { s == 0 || s == 1 || s == 2 || s == 10 || 12 <= s <= 15 }

  datatype Ie =
    | MoHeader(autoId: int, imei: bytes, status: SessionStatus, momsn: int, mtmsn: int, time: int)
    | MoPayload(payload: bytes)
    | MoLocation(latitude: real, longitude: real, cep: int)
    | MoConfirmation(success: bool)
    | MtHeader(msgId: int, imei: bytes, flags: int)
    | MtPayload(payload: bytes)
    | MtConfirmation(msgId: int, imei: bytes, autoId: int, msgStatus: int)
    | MtPriority(priority: int)

  // ----- Printing

  /** Assignment to a slice of a bytearray, which grows or shrinks when the lengths differ. */
  function SetSlice(d: bytes, i: nat, j: nat, s: bytes): bytes {
    var a := Min(i, |d|);
    var b := Max(a, Min(j, |d|));
    d[..a] + s + d[b..]
  }

  /** struct.pack('>H') or '>I'; None for struct.error. */
  function PackBe(n: int, k: nat): (r: Option<bytes>)
    ensures r.Some? ==> |r.value| == k
  {
    if 0 <= n < Pow256(k) then Some(Be(n, k)) else None
  }

  /** The length an element states after prepareRaw, tag and length included. */
  function StatedLength(ie: Ie): nat {
    match ie
    case MoHeader(_, _, _, _, _, _) => 31
    case MoPayload(p) => |p| + 3
    case MoLocation(_, _, _) => 14
    case MoConfirmation(_) => 4
    case MtHeader(_, _, _) => 24
    case MtPayload(p) => |p| + 3
    case MtConfirmation(_, _, _, _) => 28
    case MtPriority(_) => 5
  }

  function Id(ie: Ie): byte {
    match ie
    case MoHeader(_, _, _, _, _, _) => 0x01
    case MoPayload(_) => 0x02
    case MoLocation(_, _, _) => 0x03
    case MoConfirmation(_) => 0x05
    case MtHeader(_, _, _) => 0x41
    case MtPayload(_) => 0x42
    case MtConfirmation(_, _, _, _) => 0x44
    case MtPriority(_) => 0x46
  }

  /** What follows tag and length, each item with the slice of the element it is written to. */
  datatype Item = Item(from: nat, to: nat, data: Option<bytes>)

  function Items(ie: Ie): seq<Item> {
    match ie
    case MoHeader(a, imei, s, mo, mt, t) =>
      [Item(3, 7, PackBe(a, 4)), Item(7, 22, Some(imei)), Item(22, 23, Some([s])),
       Item(23, 25, PackBe(mo, 2)), Item(25, 27, PackBe(mt, 2)), Item(27, 31, PackBe(t, 4))]
    case MtHeader(m, imei, f) => [Item(3, 7, PackBe(m, 4)), Item(7, 22, Some(imei)), Item(22, 24, PackBe(f, 2))]
    case MtConfirmation(m, imei, a, s) =>
      [Item(3, 7, PackBe(m, 4)), Item(7, 22, Some(imei)), Item(22, 26, PackBe(a, 4)), Item(26, 28, PackBe(s, 2))]
    case MtPriority(p) => [Item(3, 5, PackBe(p, 2))]
    case MoPayload(p) => [Item(3, 3 + |p|, Some(p))]
    case MtPayload(p) => [Item(3, 3 + |p|, Some(p))]
    case MoLocation(_, _, _) => []
    case MoConfirmation(_) => []
  }

  /** The items written one after the other; a single byte is an index, which must exist. */
  function WriteItems(d: bytes, items: seq<Item>): Option<bytes>
    decreases |items|
  {
    if items == [] then Some(d)
    else if items[0].data.None? || (items[0].to == items[0].from + 1 && items[0].from >= |d|) then None
    else WriteItems(SetSlice(d, items[0].from, items[0].to, items[0].data.value), items[1..])
  }

  predicate HasPrinter(ie: Ie) { !ie.MoLocation? && !ie.MoConfirmation? }

  /** prepareRaw of an element; None where it raises. */
  function PrintIe(ie: Ie): Option<bytes> {
    var n := PackBe(StatedLength(ie) - 3, 2);
    if !HasPrinter(ie) || n.None? then None
    else WriteItems([Id(ie)] + n.value + Zeros(StatedLength(ie) - 3), Items(ie))
  }

  function PrintAll(ies: seq<Ie>): (r: Option<seq<bytes>>)
    ensures r.Some? ==> |r.value| == |ies|
  {
    if ies == [] then Some([])
    else
      var first, more := PrintIe(ies[0]), PrintAll(ies[1..]);
      if first.None? || more.None? then None else Some([first.value] + more.value)
  }

  function TotalStated(ies: seq<Ie>): nat {
    if ies == [] then 0 else StatedLength(ies[0]) + TotalStated(ies[1..])
  }

  /** The loop of prepareRaw that copies the elements into the message. */
  function PlaceAll(d: bytes, index: nat, ies: seq<Ie>, raws: seq<bytes>): bytes
    requires |ies| == |raws|
    decreases |ies|
  {
    if ies == [] then d
    else
      var next := index + StatedLength(ies[0]);
      PlaceAll(SetSlice(d, index, next, raws[0]), next, ies[1..], raws[1..])
  }

  /** prepareRaw of a message; None where it raises. */
  function PrintMessage(ies: seq<Ie>): Option<bytes> {
    var raws, n := PrintAll(ies), PackBe(TotalStated(ies), 2);
    if raws.None? || n.None? then None
    else Some(PlaceAll([1] + n.value + Zeros(TotalStated(ies)), 3, ies, raws.value))
  }

  // ----- Parsing one element

  /** The two length bytes after the byte at index pi, struct code '>H'. */
  function BodyLength(data: bytes, pi: nat): nat
    requires pi + 3 <= |data|
  {
    256 * (data[pi + 1] as int) + data[pi + 2]
  }

  lemma TwoBytes(a: byte, b: byte)
    ensures FromBe([a, b]) == 256 * (a as int) + b
  {
    var s := [a, b];
    assert s[..1] == [a] && [a][..0] == [];
    assert FromBe([a]) == 256 * FromBe([a][..0]) + a == a;
  }

  /** That is the number the struct module reads and writes. */
  lemma BodyLengthIs(data: bytes, pi: nat)
    requires pi + 3 <= |data|
    ensures BodyLength(data, pi) == FromBe(data[pi + 1..pi + 3])
    ensures PackBe(BodyLength(data, pi), 2) == Some(data[pi + 1..pi + 3])
  {
    assert data[pi + 1..pi + 3] == [data[pi + 1], data[pi + 2]];
    TwoBytes(data[pi + 1], data[pi + 2]);
    FromBeRoundTrip(data[pi + 1..pi + 3]);
  }

  /** parse of the element class that the tag selects; None where it returns False. */
  function ReadIe(id: byte, raw: bytes): Option<Ie>
  {
    if |raw| < 3 || raw[0] != id || |raw| != BodyLength(raw, 0) + 3 then None
    else if id == 0x01 then
      if |raw| != 31 || !IsSessionStatus(raw[22]) then None
      else Some(MoHeader(FromBe(raw[3..7]), raw[7..22], raw[22],
                         FromBe(raw[23..25]), FromBe(raw[25..27]), FromBe(raw[27..31])))
    else if id == 0x02 then Some(MoPayload(raw[3..]))
    else if id == 0x03 then
      if |raw| != 14 then None
      else Some(MoLocation(Angle(raw[3] / 2 % 2 == 1, raw[4], FromBe(raw[5..7])),
                           Angle(raw[3] % 2 == 1, raw[7], FromBe(raw[8..10])), FromBe(raw[10..14])))
    else if id == 0x05 then
      if |raw| != 4 || raw[3] > 1 then None else Some(MoConfirmation(raw[3] == 1))
    else if id == 0x41 then
      if |raw| != 24 then None else Some(MtHeader(FromBe(raw[3..7]), raw[7..22], FromBe(raw[22..24])))
    else if id == 0x42 then Some(MtPayload(raw[3..]))
    else if id == 0x44 then
      if |raw| != 28 then None
      else Some(MtConfirmation(FromBe(raw[3..7]), raw[7..22], FromBe(raw[22..26]), FromBe(raw[26..28])))
    else if id == 0x46 then
      if |raw| != 5 then None else Some(MtPriority(FromBe(raw[3..5])))
    else None
  }

  /** Degrees and thousandths of minutes, with the sign bit's meaning: set is positive. */
  function Angle(positive: bool, degrees: int, milliminutes: int): real {
    var a := degrees as real + milliminutes as real / 1000.0 / 60.0;
    if positive then a else -a
  }

  predicate KnownId(id: byte) {
    id == 0x01 || id == 0x02 || id == 0x03 || id == 0x05 || id == 0x41 || id == 0x42 || id == 0x44 || id == 0x46
  }

  // ----- Parsing a message

  datatype Error = BadRevision | TruncatedElement | LengthTooBig | UnknownElement | ParseFail

  datatype Next = Found(ie: Ie, end: nat) | Bad(error: Error)

  /** What turns the bytes of an element into the element; ReadIe is the program's. */
  type Reader = (byte, bytes) -> Option<Ie>

  /** parseNextIe at index pi of a complete message. */
  function NextIe(read: Reader, data: bytes, pi: nat): (r: Next)
    requires pi < |data|
    ensures r.Found? ==> pi + 3 <= r.end <= |data|
  {
    if pi + 3 > |data| then Bad(TruncatedElement)
    else
      var end := pi + 3 + BodyLength(data, pi);
      if end > |data| then Bad(LengthTooBig)
      else if !KnownId(data[pi]) then Bad(UnknownElement)
      else
        var ie := read(data[pi], data[pi..end]);
        if ie.None? then Bad(ParseFail) else Found(ie.value, end)
  }

  /** parseIEs: the elements found, the index reached, and the exception if one ended it. */
  function ReadIes(read: Reader, data: bytes, pi: nat): (r: (seq<Ie>, nat, Option<Error>))
    ensures pi <= r.1 && (r.2.None? ==> |data| <= r.1)
    decreases |data| - pi
  {
    if pi >= |data| then ([], pi, None)
    else
      match NextIe(read, data, pi)
      case Bad(e) => ([], pi, Some(e))
      case Found(ie, end) =>
        var (more, last, error) := ReadIes(read, data, end);
        ([ie] + more, last, error)
  }

  /** An IridiumMessage being received; receiveIdx is the length of raw. */
  datatype State = State(rev: byte, length: nat, raw: bytes, parsingIdx: nat, ies: seq<Ie>)

  datatype Outcome = More | Complete | Raised(error: Error)

  const START := State(0, 0, [], 3, [])

  /** parseByte. */
  function Step(read: Reader, s: State, b: byte): (Outcome, State) {
    var raw := s.raw + [b];
    if |raw| == 1 then (if b != 1 then Raised(BadRevision) else More, s.(raw := raw, rev := b))
    else if |raw| == 3 then (More, s.(raw := raw, length := BodyLength(raw, 0) + 3))
    else if s.length != 0 && |raw| == s.length then
      var (ies, idx, error) := ReadIes(read, raw, s.parsingIdx);
      (if error.Some? then Raised(error.value) else Complete,
       s.(raw := raw, parsingIdx := idx, ies := s.ies + ies))
    else (More, s.(raw := raw))
  }

  // ----- Elements: printing and parsing are inverse

  predicate GoodImei(ie: Ie) {
    match ie
    case MoHeader(_, imei, _, _, _, _) => |imei| == 15
    case MtHeader(_, imei, _) => |imei| == 15
    case MtConfirmation(_, imei, _, _) => |imei| == 15
    case _ => true
  }

  /** Where item i has to start. */
  function Start(items: seq<Item>, at: nat, i: nat): nat
    requires i <= |items|
  {
    if i == 0 then at else items[i - 1].to
  }

  /** Items that fit one after the other, starting at index at. */
  ghost predicate Fits(items: seq<Item>, at: nat) {
    forall i :: 0 <= i < |items| ==>
      && Start(items, at, i) == items[i].from <= items[i].to
      && items[i].data.Some? && |items[i].data.value| == items[i].to - items[i].from
  }

  /** The items are the consecutive slices of raw from index at to its end. */
  ghost predicate Covers(raw: bytes, items: seq<Item>, at: nat) {
    && Start(items, at, |items|) == |raw|
    && forall i :: 0 <= i < |items| ==>
         && Start(items, at, i) == items[i].from <= items[i].to <= |raw|
         && items[i].data == Some(raw[items[i].from..items[i].to])
  }

  lemma TailFits(items: seq<Item>, at: nat)
    requires items != []
    ensures Fits(items, at) ==> Fits(items[1..], items[0].to)
    ensures forall raw :: Covers(raw, items, at) ==> Covers(raw, items[1..], items[0].to)
  {
    forall i | 0 <= i <= |items| - 1 ensures Start(items[1..], items[0].to, i) == Start(items, at, i + 1) {
    }
    assert forall i :: 0 <= i < |items| - 1 ==> items[1..][i] == items[i + 1];
  }

  lemma CoversCons(raw: bytes, items: seq<Item>, at: nat)
    requires items != [] && at == items[0].from <= items[0].to <= |raw|
    requires items[0].data == Some(raw[at..items[0].to]) && Covers(raw, items[1..], items[0].to)
    ensures Covers(raw, items, at)
  {
    var rest := items[1..];
    forall i | 0 <= i < |items|
      ensures Start(items, at, i) == items[i].from <= items[i].to <= |raw|
              && items[i].data == Some(raw[items[i].from..items[i].to])
    {
      if i > 0 {
        assert items[i] == rest[i - 1] && Start(items, at, i) == Start(rest, items[0].to, i - 1);
      }
    }
    assert Start(items, at, |items|) == Start(rest, items[0].to, |rest|);
  }

  function Data(items: seq<Item>): bytes {
    if items == [] then [] else (if items[0].data.Some? then items[0].data.value else []) + Data(items[1..])
  }

  lemma FillNext(p: bytes, k: nat, s: bytes)
    requires |s| <= k
    ensures SetSlice(p + Zeros(k), |p|, |p| + |s|, s) == p + s + Zeros(k - |s|)
  {
  }

  /** Writing the first item, which fits. */
  lemma WriteFirst(p: bytes, items: seq<Item>)
    requires items != [] && Fits(items, |p|)
    ensures var s, rest := items[0].data.value, Data(items[1..]);
            && |Data(items)| == |s| + |rest| && items[0].to == |p + s|
            && WriteItems(p + Zeros(|Data(items)|), items) == WriteItems(p + s + Zeros(|rest|), items[1..])
  {
    assert Start(items, |p|, 0) == items[0].from;
    FillNext(p, |Data(items)|, items[0].data.value);
  }

  lemma {:induction false} WriteFills(p: bytes, items: seq<Item>)
    requires Fits(items, |p|)
    ensures WriteItems(p + Zeros(|Data(items)|), items) == Some(p + Data(items))
    ensures Covers(p + Data(items), items, |p|)
    decreases |items|
  {
    if items == [] {
      assert p + Data(items) == p && p + Zeros(0) == p;
    } else {
      var s, rest := items[0].data.value, Data(items[1..]);
      WriteFirst(p, items);
      TailFits(items, |p|);
      WriteFills(p + s, items[1..]);
      Reassociate(p, s, rest);
      assert (p + Data(items))[|p|..|p| + |s|] == s;
      CoversCons(p + Data(items), items, |p|);
    }
  }

  lemma {:induction false} DataLength(items: seq<Item>, at: nat)
    requires Fits(items, at)
    ensures |Data(items)| == Start(items, at, |items|) - at
    decreases |items|
  {
    if items != [] {
      TailFits(items, at);
      DataLength(items[1..], items[0].to);
      assert Start(items, at, 0) == items[0].from;
    }
  }

  lemma CoversFirst(raw: bytes, items: seq<Item>, at: nat)
    requires items != [] && Covers(raw, items, at)
    ensures at <= items[0].to <= |raw| && items[0].data == Some(raw[at..items[0].to])
    ensures Covers(raw, items[1..], items[0].to)
  {
    assert Start(items, at, 0) == items[0].from;
    TailFits(items, at);
  }

  lemma {:induction false} CoversData(raw: bytes, items: seq<Item>, at: nat)
    requires at <= |raw| && Covers(raw, items, at)
    ensures Data(items) == raw[at..]
    decreases |items|
  {
    if items == [] {
      assert raw[at..] == [];
    } else {
      CoversFirst(raw, items, at);
      CoversData(raw, items[1..], items[0].to);
      assert raw[at..] == raw[at..items[0].to] + raw[items[0].to..];
    }
  }

  /** Tag and length in front of a body. */
  ghost predicate Headed(raw: bytes, id: byte) {
    |raw| >= 3 && raw[0] == id && |raw| == BodyLength(raw, 0) + 3
  }

  lemma PackedBack(n: int, k: nat)
    ensures PackBe(n, k).Some? ==> FromBe(PackBe(n, k).value) == n
  {
    if 0 <= n < Pow256(k) {
      BeRoundTrip(n, k);
    }
  }

  lemma UnpackedAgain(s: bytes)
    ensures PackBe(FromBe(s), |s|) == Some(s)
  {
    FromBeRoundTrip(s);
  }

  lemma HeadedIs(raw: bytes, id: byte)
    requires Headed(raw, id)
    ensures PackBe(|raw| - 3, 2).Some? && raw == [id] + PackBe(|raw| - 3, 2).value + raw[3..]
  {
    BodyLengthIs(raw, 0);
    assert raw == [raw[0]] + raw[1..3] + raw[3..];
  }

  /** An element that covers its bytes is what they are parsed to. */
  lemma CoveredIsRead(ie: Ie, raw: bytes)
    requires HasPrinter(ie) && Headed(raw, Id(ie)) && |raw| == StatedLength(ie) && Covers(raw, Items(ie), 3)
    ensures ReadIe(Id(ie), raw) == Some(ie)
  {
    var items := Items(ie);
    assert items[0].data == Some(raw[3..items[0].to]);
    assert raw[3..|raw|] == raw[3..];
    match ie
    case MoHeader(a, imei, s, mo, mt, t) =>
      assert items[1].data == Some(raw[7..22]) && items[2].data == Some(raw[22..23]);
      assert items[3].data == Some(raw[23..25]) && items[4].data == Some(raw[25..27]);
      assert items[5].data == Some(raw[27..31]) && raw[22..23] == [s];
      PackedBack(a, 4);
      PackedBack(mo, 2);
      PackedBack(mt, 2);
      PackedBack(t, 4);
    case MtHeader(m, imei, f) =>
      assert items[1].data == Some(raw[7..22]) && items[2].data == Some(raw[22..24]);
      PackedBack(m, 4);
      PackedBack(f, 2);
    case MtConfirmation(m, imei, a, s) =>
      assert items[1].data == Some(raw[7..22]) && items[2].data == Some(raw[22..26]);
      assert items[3].data == Some(raw[26..28]);
      PackedBack(m, 4);
      PackedBack(a, 4);
      PackedBack(s, 2);
    case MtPriority(p) =>
      PackedBack(p, 2);
    case _ =>
  }

  /** Bytes that are parsed to an element that can be printed are covered by it. */
  lemma ReadIsCovered(id: byte, raw: bytes)
    requires ReadIe(id, raw).Some? && HasPrinter(ReadIe(id, raw).value)
    ensures var ie := ReadIe(id, raw).value;
            Id(ie) == id && Headed(raw, id) && |raw| == StatedLength(ie) && Covers(raw, Items(ie), 3)
  {
    assert raw[3..|raw|] == raw[3..];
    match ReadIe(id, raw).value
    case MoHeader(a, imei, s, mo, mt, t) =>
      UnpackedAgain(raw[3..7]);
      UnpackedAgain(raw[23..25]);
      UnpackedAgain(raw[25..27]);
      UnpackedAgain(raw[27..31]);
      assert raw[22..23] == [s];
    case MtHeader(m, imei, f) =>
      UnpackedAgain(raw[3..7]);
      UnpackedAgain(raw[22..24]);
    case MtConfirmation(m, imei, a, s) =>
      UnpackedAgain(raw[3..7]);
      UnpackedAgain(raw[22..26]);
      UnpackedAgain(raw[26..28]);
    case MtPriority(p) =>
      UnpackedAgain(raw[3..5]);
    case _ =>
  }

  lemma {:induction false} WritesAll(d: bytes, items: seq<Item>)
    requires WriteItems(d, items).Some?
    ensures forall i :: 0 <= i < |items| ==> items[i].data.Some?
    decreases |items|
  {
    if items != [] {
      WritesAll(SetSlice(d, items[0].from, items[0].to, items[0].data.value), items[1..]);
      assert forall i :: 0 < i < |items| ==> items[i] == items[1..][i - 1];
    }
  }

  lemma ItemsFit(ie: Ie)
    requires GoodImei(ie) && HasPrinter(ie) && PrintIe(ie).Some?
    ensures Fits(Items(ie), 3) && |Data(Items(ie))| == StatedLength(ie) - 3
  {
    WritesAll([Id(ie)] + PackBe(StatedLength(ie) - 3, 2).value + Zeros(StatedLength(ie) - 3), Items(ie));
    DataLength(Items(ie), 3);
  }

  /** Printing an element and parsing it. */
  lemma PrintThenRead(ie: Ie)
    requires PrintIe(ie).Some? && GoodImei(ie)
    ensures var raw := PrintIe(ie).value;
            Headed(raw, Id(ie)) && |raw| == StatedLength(ie) && ReadIe(Id(ie), raw) == Some(ie)
  {
    ItemsFit(ie);
    var head := [Id(ie)] + PackBe(StatedLength(ie) - 3, 2).value;
    WriteFills(head, Items(ie));
    var raw := PrintIe(ie).value;
    assert raw == head + Data(Items(ie));
    assert raw[1..3] == PackBe(StatedLength(ie) - 3, 2).value;
    PackedBack(StatedLength(ie) - 3, 2);
    BodyLengthIs(raw, 0);
    CoveredIsRead(ie, raw);
  }

  lemma CoveredFits(raw: bytes, items: seq<Item>, at: nat)
    requires Covers(raw, items, at)
    ensures Fits(items, at)
  {
  }

  /** Parsing an element and printing it again. */
  lemma ReadThenPrint(id: byte, raw: bytes)
    requires ReadIe(id, raw).Some? && HasPrinter(ReadIe(id, raw).value)
    ensures PrintIe(ReadIe(id, raw).value) == Some(raw)
  {
    var ie := ReadIe(id, raw).value;
    ReadIsCovered(id, raw);
    HeadedIs(raw, id);
    CoveredFits(raw, Items(ie), 3);
    CoversData(raw, Items(ie), 3);
    WriteFills([id] + PackBe(|raw| - 3, 2).value, Items(ie));
  }

  lemma ReadGoodImei(id: byte, raw: bytes)
    requires ReadIe(id, raw).Some?
    ensures GoodImei(ReadIe(id, raw).value)
  {
  }
}
