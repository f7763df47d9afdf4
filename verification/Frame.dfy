/**
 One MAVLink frame: MAVLink_header.pack, MAVLink_message.pack, sign_packet, check_signature and decode of the
 runtime template in pymavlink/generator/mavgen_python.py, as functions of bytes and of the signing state.
 */
module Frame {
  import opened Bytes
  import opened Layout
  import opened Wire
  import Payload
  import Crc

  const MARKER_V1: byte := 0xFE
  const MARKER_V2: byte := 0xFD
  const SIGNATURE_LEN := 13
  const NEW_STREAM_SLACK := 6000 * 1000

  datatype Version = V1 | V2

  type Digest = d: bytes | |d| == 32 witness Zeros(32)

  type Word16 = w: nat | w < 0x1_0000

  /**
   What a connection never changes: the protocol, the generated messages, SHA-256 as some function, the checksum
   and the crc_extra constants of the generated classes. What is proved about frames holds whatever the last two
   are; the program's are named by UsesX25.
   */
  datatype Link = Link(
    version: Version, dialect: map<nat, MsgDef>, sha256: bytes -> Digest, x25: bytes -> Word16, extra: MsgDef -> byte)
  {
    ghost predicate Valid() {
      forall id :: id in dialect ==> dialect[id].id == id && dialect[id].Unambiguous()
    }
  }

  ghost predicate UsesX25(link: Link) {
    && (forall s: bytes {:trigger Crc.Checksum(s)} :: link.x25(s) == Crc.Checksum(s))
    && (forall def: MsgDef {:trigger CrcExtra(def)} :: link.extra(def) == CrcExtra(def))
  }

  datatype Sender = Sender(seqNo: int, srcSystem: int, srcComponent: int)

  datatype Header = Header(msgId: nat, incompat: int, compat: int, mlen: nat, seqNo: int, sys: int, comp: int)

  /** MAVLinkSigning; streams is stream_timestamps, keyed by (link id, system, component). */
  datatype Signing = Signing(
    secretKey: Option<bytes>, timestamp: nat, linkId: int, signOutgoing: bool,
    allowUnsigned: Option<nat -> bool>, streams: map<(int, int, int), nat>,
    sigCount: nat, badsigCount: nat, goodsigCount: nat, unsignedCount: nat, rejectCount: nat)

  datatype DecodeError =
    | EmptyBuffer | ShortHeader | BadPrefix | BadLength | UnknownId | BadChecksum | BadSignature | BadFlags

  datatype Msg = Msg(
    def: MsgDef, header: Header, values: seq<Value>, crc: nat, signed: bool, linkId: Option<byte>,
    buf: bytes, payload: bytes)

  datatype Decoded = Ok(msg: Msg) | Failed(error: DecodeError)

  predicate IsByte(n: int) { 0 <= n < 256 }

  // ----- Packing

  /** In MAVLink 2 trailing zero bytes are not sent, except that one payload byte always stays. */
  function Trim(p: bytes): (r: bytes)
    ensures r <= p
    ensures |p| > 0 ==> |r| > 0
    decreases |p|
  {
    if |p| > 1 && p[|p| - 1] == 0 then Trim(p[..|p| - 1]) else p
  }

  /** struct.pack of a header; None stands for struct.error. */
  function PackHeader(v2: bool, h: Header): (r: Option<bytes>)
    ensures r.Some? ==> |r.value| == HeaderLen(v2)
  {
    if !(IsByte(h.mlen) && IsByte(h.seqNo) && IsByte(h.sys) && IsByte(h.comp)) then None
    else if v2 then
      if !(IsByte(h.incompat) && IsByte(h.compat) && IsByte(h.msgId / 0x10000)) then None
      else
        var low := h.msgId % 0x10000;
        Some([MARKER_V2, h.mlen, h.incompat, h.compat, h.seqNo, h.sys, h.comp, low % 256, low / 256, h.msgId / 0x10000])
    else if !IsByte(h.msgId) then None
    else Some([MARKER_V1, h.mlen, h.seqNo, h.sys, h.comp, h.msgId])
  }

  function HeaderLen(v2: bool): nat { if v2 then 10 else 6 }

  /** The checksum of a frame's header and payload, marker excluded, with the message's extra byte. */
  function FrameCrc(link: Link, body: bytes, extra: byte): Word16
    requires |body| > 0
  {
    link.x25(body[1..] + [extra])
  }

  function SignatureOf(link: Link, key: bytes, signedPart: bytes): (r: bytes)
    ensures |r| == 6
  {
    link.sha256(key + signedPart)[..6]
  }

  /** The link id and timestamp that precede the signature, struct code '<BQ' cut to 7 bytes. */
  function SignatureHead(sg: Signing): (r: bytes)
    requires IsByte(sg.linkId)
    ensures |r| == 7
  {
    ([sg.linkId] + Le(sg.timestamp, 8))[..7]
  }

  /** sign_packet; None where struct.pack or the hash update raises. */
  function SignPacket(link: Link, sg: Signing, frame: bytes): (r: Option<(bytes, Signing)>) {
    if !IsByte(sg.linkId) || sg.timestamp >= Pow256(8) || sg.secretKey.None? then None
    else
      var part := frame + SignatureHead(sg);
      Some((part + SignatureOf(link, sg.secretKey.value, part), sg.(timestamp := sg.timestamp + 1)))
  }

  function SendHeader(sender: Sender, sg: Signing, def: MsgDef, plen: nat): Header {
    Header(def.id, if sg.signOutgoing then 1 else 0, 0, plen, sender.seqNo, sender.srcSystem, sender.srcComponent)
  }

  predicate UsesV2(link: Link, force: bool) { link.version.V2? && !force }

  /** The payload as sent. */
  function SentPayload(v2: bool, payload: bytes): bytes {
    if v2 then Trim(payload) else payload
  }

  /** Header, payload and checksum. */
  function Assemble(link: Link, v2: bool, h: Header, def: MsgDef, sent: bytes): (r: bytes)
    requires PackHeader(v2, h).Some?
    ensures |r| == HeaderLen(v2) + |sent| + 2
  {
    var head := PackHeader(v2, h).value;
    head + sent + Le(FrameCrc(link, head + sent, link.extra(def)), 2)
  }

  function PackUnsigned(link: Link, sender: Sender, sg: Signing, def: MsgDef, payload: bytes,
                        force: bool): (r: Option<bytes>)
    ensures r.Some? ==>
              |r.value| == HeaderLen(UsesV2(link, force)) + |SentPayload(UsesV2(link, force), payload)| + 2
  {
    var sent := SentPayload(UsesV2(link, force), payload);
    var header := PackHeader(UsesV2(link, force), SendHeader(sender, sg, def, |sent|));
    if header.None? then None
    else Some(Assemble(link, UsesV2(link, force), SendHeader(sender, sg, def, |sent|), def, sent))
  }

  /** MAVLink_message.pack of a generated message; None where the code raises. */
  function PackFrame(link: Link, sender: Sender, sg: Signing, def: MsgDef, values: seq<Value>, force: bool)
    : (r: Option<(bytes, Signing)>)
    requires |values| == |def.fields|
  {
    var payload := Payload.Pack(def, values);
    if payload.None? then None
    else
      var frame := PackUnsigned(link, sender, sg, def, payload.value, force);
      if frame.None? then None
      else if sg.signOutgoing && !force then SignPacket(link, sg, frame.value)
      else Some((frame.value, sg))
  }

  // ----- Decoding

  function Word(low: nat, high: nat): nat { low + 256 * high }

  function ParseHeader(buf: bytes): Header
    requires |buf| > 0 && |buf| >= HeaderLen(buf[0] != MARKER_V1)
  {
    if buf[0] != MARKER_V1 then
      Header(Word(buf[7], buf[8]) + 0x10000 * Word(buf[9], 0), buf[2], buf[3], buf[1], buf[4], buf[5], buf[6])
    else Header(buf[5], 0, 0, buf[1], buf[2], buf[3], buf[4])
  }

  function TailLen(h: Header): (n: nat)
    ensures n == 2 || n == 2 + SIGNATURE_LEN
  {
    2 + if h.incompat % 2 != 0 then SIGNATURE_LEN else 0
  }

  /** The checks of decode before any signature is looked at; None when the frame passes. */
  function FrameFault(link: Link, buf: bytes): (r: Option<DecodeError>)
    ensures r.None? ==>
              && |buf| > 0 && |buf| >= HeaderLen(buf[0] != MARKER_V1)
              && var h := ParseHeader(buf);
                 |buf| == HeaderLen(buf[0] != MARKER_V1) + h.mlen + TailLen(h) && h.msgId in link.dialect
  {
    if buf == [] then Some(EmptyBuffer)
    else
      var hl := HeaderLen(buf[0] != MARKER_V1);
      if |buf| < hl then Some(ShortHeader)
      else
        var h := ParseHeader(buf);
        if buf[0] != MARKER_V1 && buf[0] != MARKER_V2 then Some(BadPrefix)
        else if h.mlen != |buf| - (hl + TailLen(h)) then Some(BadLength)
        else if h.msgId !in link.dialect then Some(UnknownId)
        else
          var end := |buf| - TailLen(h);
          if FromLe(buf[end..end + 2]) != FrameCrc(link, buf[..end], link.extra(link.dialect[h.msgId]))
          then Some(BadChecksum)
          else None
  }

  /** Timestamp of a signature block: '<IH', low word first. */
  function SignatureTime(buf: bytes): nat
    requires |buf| >= SIGNATURE_LEN
  {
    var tb := buf[|buf| - 12..|buf| - 6];
    FromLe(tb[..4]) + FromLe(tb[4..]) * 0x1_0000_0000
  }

  function StreamKey(buf: bytes, h: Header): (int, int, int)
    requires |buf| >= SIGNATURE_LEN
  {
    (buf[|buf| - 13], h.sys, h.comp)
  }

  /** check_signature: the new stream table is kept even when the hash then disagrees. */
  function CheckSignature(link: Link, sg: Signing, buf: bytes, h: Header): (r: (bool, Signing))
    requires |buf| >= SIGNATURE_LEN && sg.secretKey.Some?
  {
    var time, key := SignatureTime(buf), StreamKey(buf, h);
    if key in sg.streams && time <= sg.streams[key] then (false, sg)
    else if key !in sg.streams && time + NEW_STREAM_SLACK < sg.timestamp then (false, sg)
    else
      var sg := if key in sg.streams then sg else sg.(streams := sg.streams[key := time]);
      if SignatureOf(link, sg.secretKey.value, buf[..|buf| - 6]) != buf[|buf| - 6..] then (false, sg)
      else (true, sg.(timestamp := Max(sg.timestamp, time)))
  }

  /** A packet that carries no good signature is put to the callback, if there is one. */
  function AskUser(sg: Signing, msgId: nat): (bool, Signing) {
    if sg.allowUnsigned.None? then (false, sg)
    else if sg.allowUnsigned.value(msgId) then (true, sg.(unsignedCount := sg.unsignedCount + 1))
    else (false, sg.(rejectCount := sg.rejectCount + 1))
  }

  datatype Verdict = Verdict(accept: bool, sigOk: bool, sg: Signing)

  /** The signature part of decode. */
  function Authenticate(link: Link, sg: Signing, buf: bytes, h: Header): Verdict
    requires |buf| >= TailLen(h)
  {
    var signed := TailLen(h) == 2 + SIGNATURE_LEN;
    var sg := if signed then sg.(sigCount := sg.sigCount + 1) else sg;
    if sg.secretKey.None? then Verdict(true, false, sg)
    else if !signed then
      var (accept, sg) := AskUser(sg, h.msgId);
      Verdict(accept, false, sg)
    else
      var (ok, sg) := CheckSignature(link, sg, buf, h);
      if ok then Verdict(true, true, sg.(goodsigCount := sg.goodsigCount + 1))
      else
        var (accept, sg) := AskUser(sg.(badsigCount := sg.badsigCount + 1), h.msgId);
        Verdict(accept, false, sg)
  }

  /** Zero-extended or cut to the size the format needs. */
  function Fit(p: bytes, n: nat): (r: bytes)
    ensures |r| == n
  {
    PadString(p, n)
  }

  /** The field values of a frame that passed. */
  function ReadValues(link: Link, buf: bytes): seq<Value>
    requires link.Valid() && FrameFault(link, buf).None?
  {
    var h := ParseHeader(buf);
    var def := link.dialect[h.msgId];
    Payload.Unpack(def, Fit(buf[HeaderLen(buf[0] != MARKER_V1)..|buf| - TailLen(h)], TotalLength(def.Ordered())))
  }

  /** The message built from a frame that passed. */
  function Build(link: Link, buf: bytes, sigOk: bool): Msg
    requires link.Valid() && FrameFault(link, buf).None?
  {
    var h := ParseHeader(buf);
    var end := |buf| - TailLen(h);
    Msg(link.dialect[h.msgId], h, ReadValues(link, buf), FromLe(buf[end..end + 2]), sigOk,
        if sigOk && |buf| >= SIGNATURE_LEN then Some(buf[|buf| - 13]) else None,
        buf, buf[6..end])
  }

  /** decode, with the signing state it leaves behind. */
  function Decode(link: Link, sg: Signing, buf: bytes): (r: (Decoded, Signing))
    requires link.Valid()
  {
    var fault := FrameFault(link, buf);
    if fault.Some? then (Failed(fault.value), sg)
    else
      var v := Authenticate(link, sg, buf, ParseHeader(buf));
      if v.accept then (Ok(Build(link, buf, v.sigOk)), v.sg) else (Failed(BadSignature), v.sg)
  }

  // ----- A packed frame passes every check

  lemma {:induction false} TrimFits(p: bytes, n: nat)
    ensures Fit(Trim(p), n) == Fit(p, n)
    decreases |p|
  {
    if |p| > 1 && p[|p| - 1] == 0 {
      var q := p[..|p| - 1];
      TrimFits(q, n);
      assert p == q + [0];
      assert Fit(q, n) == Fit(p, n);
    }
  }

  lemma HeaderRoundTrip(v2: bool, h: Header, rest: bytes)
    requires PackHeader(v2, h).Some?
    requires !v2 ==> h.compat == 0
    ensures var buf := PackHeader(v2, h).value + rest;
            && buf[0] == (if v2 then MARKER_V2 else MARKER_V1)
            && ParseHeader(buf) == if v2 then h else h.(incompat := 0)
  {
  }

  /** The frame decode would see as unsigned or signed according to its flags is the one that was packed. */
  predicate MarksItsSignature(link: Link, sg: Signing, force: bool) {
    UsesV2(link, force) || force || !sg.signOutgoing
  }

  /** The header a receiver reads off a frame: version 1 has no room for flags. */
  function ReceivedHeader(v2: bool, h: Header): Header {
    if v2 then h else h.(incompat := 0, compat := 0)
  }

  /** The payload of a frame, as decode cuts it out. */
  function PayloadPart(buf: bytes): bytes
    requires |buf| > 0 && |buf| >= HeaderLen(buf[0] != MARKER_V1)
    requires HeaderLen(buf[0] != MARKER_V1) + TailLen(ParseHeader(buf)) <= |buf|
  {
    buf[HeaderLen(buf[0] != MARKER_V1)..|buf| - TailLen(ParseHeader(buf))]
  }

  /** What a frame followed by its signature block, if it announces one, looks like to decode. */
  lemma UnsignedPasses(link: Link, sender: Sender, sg: Signing, def: MsgDef, payload: bytes, force: bool, block: bytes)
    requires def.id in link.dialect && link.dialect[def.id] == def
    requires PackUnsigned(link, sender, sg, def, payload, force).Some?
    requires |block| == if UsesV2(link, force) && sg.signOutgoing then SIGNATURE_LEN else 0
    ensures
      var v2 := UsesV2(link, force);
      var frame := PackUnsigned(link, sender, sg, def, payload, force).value;
      var sent := SentPayload(v2, payload);
      && FrameFault(link, frame + block).None?
      && ParseHeader(frame + block) == ReceivedHeader(v2, SendHeader(sender, sg, def, |sent|))
      && PayloadPart(frame + block) == sent
      && TailLen(ParseHeader(frame + block)) == 2 + |block|
  {
    var v2 := UsesV2(link, force);
    var sent := SentPayload(v2, payload);
    AssembledPasses(link, v2, SendHeader(sender, sg, def, |sent|), def, sent, block);
  }

  lemma AssembledPasses(link: Link, v2: bool, h: Header, def: MsgDef, sent: bytes, block: bytes)
    requires def.id in link.dialect && link.dialect[def.id] == def
    requires PackHeader(v2, h).Some? && h.msgId == def.id && h.mlen == |sent| && h.compat == 0
    requires |block| == if v2 && h.incompat % 2 != 0 then SIGNATURE_LEN else 0
    ensures
      var buf := Assemble(link, v2, h, def, sent) + block;
      && FrameFault(link, buf).None?
      && ParseHeader(buf) == ReceivedHeader(v2, h)
      && PayloadPart(buf) == sent
      && TailLen(ParseHeader(buf)) == 2 + |block|
  {
    var head := PackHeader(v2, h).value;
    var sum := FrameCrc(link, head + sent, link.extra(def));
    FourParts(head, sent, Le(sum, 2), block);
    HeaderRoundTrip(v2, h, sent + Le(sum, 2) + block);
    SumRoundTrip(sum);
  }

  lemma SumRoundTrip(sum: nat)
    requires sum < 0x1_0000
    ensures FromLe(Le(sum, 2)) == sum
  {
    PowValues();
    LeRoundTrip(sum, 2);
  }

  lemma FourParts(a: bytes, b: bytes, c: bytes, d: bytes)
    ensures a + b + c + d == a + (b + c + d)
    ensures (a + b + c + d)[..|a| + |b|] == a + b
    ensures (a + b + c + d)[|a|..|a| + |b|] == b
    ensures (a + b + c + d)[|a| + |b|..|a| + |b| + |c|] == c
  {
  }

  /** The values a receiver ends up with. */
  function NormalAll(def: MsgDef, values: seq<Value>): (r: seq<Value>)
    requires |values| == |def.fields|
    ensures |r| == |values|
  {
    seq(|values|, i requires 0 <= i < |values| => Normal(def.fields[i], values[i]))
  }

  lemma PayloadRoundTrip(def: MsgDef, values: seq<Value>, v2: bool)
    requires def.Unambiguous() && |values| == |def.fields| && Payload.Pack(def, values).Some?
    ensures Payload.Unpack(def, Fit(SentPayload(v2, Payload.Pack(def, values).value), TotalLength(def.Ordered())))
         == NormalAll(def, values)
  {
    var payload := Payload.Pack(def, values).value;
    TrimFits(payload, |payload|);
    assert Fit(payload, |payload|) == payload;
    Payload.FieldsRoundTrip(def, values);
  }

  /** The 13 bytes that sign_packet appends. */
  function SignatureBlock(link: Link, sg: Signing, frame: bytes): (r: bytes)
    requires IsByte(sg.linkId) && sg.secretKey.Some?
    ensures |r| == SIGNATURE_LEN
  {
    SignatureHead(sg) + SignatureOf(link, sg.secretKey.value, frame + SignatureHead(sg))
  }

  lemma SignedShape(link: Link, sg: Signing, frame: bytes)
    requires SignPacket(link, sg, frame).Some?
    ensures IsByte(sg.linkId) && sg.secretKey.Some? && sg.timestamp < Pow256(8)
    ensures SignPacket(link, sg, frame).value.0 == frame + SignatureBlock(link, sg, frame)
  {
    var head := SignatureHead(sg);
    var signature := SignatureOf(link, sg.secretKey.value, frame + head);
    assert frame + (head + signature) == frame + head + signature;
  }

  /** A packed frame is an unsigned frame and, when signing, its signature block. */
  lemma PackedShape(link: Link, sender: Sender, sg: Signing, def: MsgDef, values: seq<Value>, force: bool)
    returns (payload: bytes, frame: bytes, block: bytes)
    requires |values| == |def.fields| && PackFrame(link, sender, sg, def, values, force).Some?
    ensures Payload.Pack(def, values) == Some(payload)
    ensures PackUnsigned(link, sender, sg, def, payload, force) == Some(frame)
    ensures PackFrame(link, sender, sg, def, values, force).value.0 == frame + block
    ensures if sg.signOutgoing && !force
            then SignPacket(link, sg, frame).Some? && IsByte(sg.linkId) && sg.secretKey.Some?
                 && block == SignatureBlock(link, sg, frame)
            else block == []
  {
    payload := Payload.Pack(def, values).value;
    frame := PackUnsigned(link, sender, sg, def, payload, force).value;
    if sg.signOutgoing && !force {
      SignedShape(link, sg, frame);
      block := SignatureBlock(link, sg, frame);
    } else {
      block := [];
      assert frame + block == frame;
    }
  }

  /**
   The codec's central law. Whatever values pack accepts, the packed frame passes every check of decode, and the
   message built from it carries the same id, sequence number, system and component and the same values in
   declaration order, strings ended at their first NUL. Only a frame that marks its signature can do so.
   */
  lemma PackThenDecode(link: Link, sender: Sender, sg: Signing, def: MsgDef, values: seq<Value>, force: bool)
    requires link.Valid() && def.id in link.dialect && link.dialect[def.id] == def
    requires |values| == |def.fields| && PackFrame(link, sender, sg, def, values, force).Some?
    ensures FrameFault(link, PackFrame(link, sender, sg, def, values, force).value.0).None?
       <==> MarksItsSignature(link, sg, force)
    ensures MarksItsSignature(link, sg, force) ==>
      forall sigOk ::
        var msg := Build(link, PackFrame(link, sender, sg, def, values, force).value.0, sigOk);
        && msg.def == def && msg.values == NormalAll(def, values)
        && msg.header.msgId == def.id && msg.header.seqNo == sender.seqNo
        && msg.header.sys == sender.srcSystem && msg.header.comp == sender.srcComponent
  {
    var payload, frame, block := PackedShape(link, sender, sg, def, values, force);
    if MarksItsSignature(link, sg, force) {
      UnsignedPasses(link, sender, sg, def, payload, force, block);
      PayloadRoundTrip(def, values, UsesV2(link, force));
    } else {
      UnmarkedFails(link, sender, sg, def, payload, block);
    }
  }

  /** A version 1 header has no flag, so a signature after it only makes the length wrong. */
  lemma UnmarkedFails(link: Link, sender: Sender, sg: Signing, def: MsgDef, payload: bytes, block: bytes)
    requires link.version.V1? && sg.signOutgoing && |block| == SIGNATURE_LEN
    requires PackUnsigned(link, sender, sg, def, payload, false).Some?
    ensures FrameFault(link, PackUnsigned(link, sender, sg, def, payload, false).value + block) == Some(BadLength)
  {
    var h := SendHeader(sender, sg, def, |payload|);
    var head := PackHeader(false, h).value;
    var frame := PackUnsigned(link, sender, sg, def, payload, false).value;
    var buf := frame + block;
    assert buf == head + buf[6..];
    HeaderRoundTrip(false, h, buf[6..]);
  }

  /** With no key at the receiver, decode returns exactly that message. */
  lemma DecodeWithoutKey(link: Link, sender: Sender, sg: Signing, def: MsgDef, values: seq<Value>, force: bool,
                         rx: Signing)
    requires link.Valid() && def.id in link.dialect && link.dialect[def.id] == def
    requires |values| == |def.fields| && PackFrame(link, sender, sg, def, values, force).Some?
    requires rx.secretKey.None?
    ensures Decode(link, rx, PackFrame(link, sender, sg, def, values, force).value.0).0.Ok?
       <==> MarksItsSignature(link, sg, force)
    ensures MarksItsSignature(link, sg, force) ==>
              Decode(link, rx, PackFrame(link, sender, sg, def, values, force).value.0).0.msg.values
                == NormalAll(def, values)
  {
    PackThenDecode(link, sender, sg, def, values, force);
  }

  predicate AllInRange(def: MsgDef, values: seq<Value>)
    requires |values| == |def.fields|
  {
    forall i :: 0 <= i < |values| ==> InRange(def.fields[i], values[i])
  }

  /** The values that are packed and come back exactly as they were given are those in range. */
  lemma SurviveExactlyInRange(def: MsgDef, values: seq<Value>)
    requires def.Unambiguous() && |values| == |def.fields|
    ensures Payload.Pack(def, values).Some? && NormalAll(def, values) == values <==> AllInRange(def, values)
  {
    Payload.PackSucceeds(def, values);
    forall i | 0 <= i < |values|
      ensures PackField(def.fields[i], values[i]).Some? && NormalAll(def, values)[i] == values[i]
         <==> InRange(def.fields[i], values[i])
    {
      SurvivesExactlyInRange(def.fields[i], values[i]);
    }
  }

  /** decode gives back exactly what pack was given, if and only if every value is in range. */
  lemma IdentityExactlyInRange(link: Link, sender: Sender, sg: Signing, def: MsgDef, values: seq<Value>, force: bool,
                               rx: Signing)
    requires link.Valid() && def.id in link.dialect && link.dialect[def.id] == def
    requires |values| == |def.fields| && PackFrame(link, sender, sg, def, values, force).Some?
    requires rx.secretKey.None? && MarksItsSignature(link, sg, force)
    ensures var d := Decode(link, rx, PackFrame(link, sender, sg, def, values, force).value.0).0;
            d.Ok? && (d.msg.values == values <==> AllInRange(def, values))
  {
    DecodeWithoutKey(link, sender, sg, def, values, force, rx);
    SurviveExactlyInRange(def, values);
  }

  // ----- When a message packs

  /** The numbers of a header fit it. */
  predicate HeaderFits(v2: bool, sender: Sender, id: nat) {
    && IsByte(sender.seqNo) && IsByte(sender.srcSystem) && IsByte(sender.srcComponent)
    && id < (if v2 then 0x100_0000 else 0x100)
  }

  /** What sign_packet needs. */
  predicate CanSign(sg: Signing) {
    IsByte(sg.linkId) && sg.timestamp < 0x1_0000_0000_0000_0000 && sg.secretKey.Some?
  }

  lemma HeaderPacks(v2: bool, sender: Sender, sg: Signing, def: MsgDef, plen: nat)
    ensures PackHeader(v2, SendHeader(sender, sg, def, plen)).Some?
       <==> plen < 256 && HeaderFits(v2, sender, def.id)
  {
    var h := SendHeader(sender, sg, def, plen);
    assert IsByte(h.msgId / 0x10000) <==> h.msgId < 0x100_0000;
  }

  /**
   pack succeeds if and only if each value is accepted for its field, fewer than 256 bytes are to be sent, the header's
   numbers fit it, and the frame can be signed if it is to be.
   */
  lemma PacksExactly(link: Link, sender: Sender, sg: Signing, def: MsgDef, values: seq<Value>, force: bool)
    requires def.Unambiguous() && |values| == |def.fields|
    ensures PackFrame(link, sender, sg, def, values, force).Some?
       <==> && (forall i :: 0 <= i < |values| ==> PackField(def.fields[i], values[i]).Some?)
            && Payload.Pack(def, values).Some?
            && |SentPayload(UsesV2(link, force), Payload.Pack(def, values).value)| < 256
            && HeaderFits(UsesV2(link, force), sender, def.id)
            && (sg.signOutgoing && !force ==> CanSign(sg))
  {
    Payload.PackSucceeds(def, values);
    PowValues();
    if Payload.Pack(def, values).Some? {
      var sent := SentPayload(UsesV2(link, force), Payload.Pack(def, values).value);
      HeaderPacks(UsesV2(link, force), sender, sg, def, |sent|);
    }
  }
}
