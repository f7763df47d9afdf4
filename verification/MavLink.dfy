/**
 The objects of the runtime template in pymavlink/generator/mavgen_python.py: a message that packs itself into its
 own buffer, and the connection that sends, signs, parses and decodes.
 */
module MavLink {
  import opened Bytes
  import opened Layout
  import opened Wire
  import opened Frame
  import opened Stream
  import Payload
  import Crc

  /** A generated message object. */
  class Message {
    const def: MsgDef
    const values: seq<Value>
    var payload: bytes
    var header: Option<Header>
    var msgbuf: bytes
    var crc: nat

    constructor (def: MsgDef, values: seq<Value>)
      requires |values| == |def.fields|
      ensures this.def == def && this.values == values
    {
      this.def, this.values := def, values;
      payload, header, msgbuf, crc := [], None, [], 0;
    }

    /** The trimming loop of pack. */
    method TrimPayload(full: bytes) returns (plen: nat)
      ensures plen <= |full| && full[..plen] == Trim(full)
    {
      plen := |full|;
      assert full[..plen] == full;
      while plen > 1 && full[plen - 1] == 0
        invariant plen <= |full|
        invariant Trim(full[..plen]) == Trim(full)
      {
        assert full[..plen][..plen - 1] == full[..plen - 1];
        plen := plen - 1;
      }
    }

    /** The CRC object of pack: the frame without its marker, then the extra byte. */
    method ComputeCrc(link: Link, body: bytes, extra: byte) returns (c: nat)
      requires |body| > 0 && UsesX25(link)
      ensures c == FrameCrc(link, body, extra)
    {
      var sum := new Crc.X25Crc(body[1..]);
      ghost var start := Crc.Accumulate(Crc.INIT, body[1..]);
      sum.Add(start, [extra]);
      Crc.Chains(Crc.INIT, body[1..], [extra]);
      c := sum.Value(Crc.Accumulate(start, [extra]));
      assert c == Crc.Checksum(body[1..] + [extra]);
    }

    /** MAVLink_message.pack; false where the code raises. */
    method Pack(mav: Connection, force: bool) returns (ok: bool)
      requires |values| == |def.fields| && UsesX25(mav.link)
      modifies this, mav`signing
      ensures ok <==> PackFrame(mav.link, mav.Sending(), old(mav.signing), def, values, force).Some?
      ensures ok ==>
                (msgbuf, mav.signing) == PackFrame(mav.link, mav.Sending(), old(mav.signing), def, values, force).value
      ensures !ok ==> mav.signing == old(mav.signing)
    {
      var full := Payload.Pack(def, values);
      if full.None? {
        return false;
      }
      var v2 := mav.link.version.V2? && !force;
      var plen := |full.value|;
      if v2 {
        plen := TrimPayload(full.value);
      }
      payload := full.value[..plen];
      assert payload == SentPayload(v2, full.value);
      header := Some(SendHeader(mav.Sending(), mav.signing, def, |payload|));
      var head := PackHeader(v2, header.value);
      if head.None? {
        return false;
      }
      msgbuf := head.value + payload;
      crc := ComputeCrc(mav.link, msgbuf, mav.link.extra(def));
      msgbuf := msgbuf + Le(crc, 2);
      ok := true;
      if mav.signing.signOutgoing && !force {
        ok := Sign(mav);
      }
    }

    /** sign_packet. */
    method Sign(mav: Connection) returns (ok: bool)
      modifies this`msgbuf, mav`signing
      ensures ok <==> SignPacket(mav.link, old(mav.signing), old(msgbuf)).Some?
      ensures ok ==> (msgbuf, mav.signing) == SignPacket(mav.link, old(mav.signing), old(msgbuf)).value
      ensures !ok ==> mav.signing == old(mav.signing)
    {
      var sg := mav.signing;
      if !IsByte(sg.linkId) || sg.timestamp >= Pow256(8) || sg.secretKey.None? {
        return false;
      }
      msgbuf := msgbuf + ([sg.linkId] + Le(sg.timestamp, 8))[..7];
      var digest := mav.link.sha256(sg.secretKey.value + msgbuf);
      msgbuf := msgbuf + digest[..6];
      mav.signing := sg.(timestamp := sg.timestamp + 1);
      ok := true;
    }
  }

  /** The MAVLink object. */
  class Connection {
    const link: Link
    var seqNo: int
    var srcSystem: int
    var srcComponent: int
    var buf: bytes
    var bufIndex: nat
    var expectedLength: nat
    var havePrefixError: bool
    var robust: bool
    var file: bytes
    var packetsSent: nat
    var bytesSent: nat
    var packetsReceived: nat
    var bytesReceived: nat
    var receiveErrors: nat
    var signing: Signing

    constructor (link: Link, srcSystem: int, srcComponent: int, signing: Signing)
      requires link.Valid() && UsesX25(link)
      ensures Valid() && this.link == link && this.signing == signing && !robust
      ensures Receiving() == Rx([], 8, false, signing, 0, 0, 0)
      ensures Sending() == Sender(0, srcSystem, srcComponent) && file == []
    {
      this.link := link;
      seqNo, this.srcSystem, this.srcComponent := 0, srcSystem, srcComponent;
      buf, bufIndex, expectedLength, havePrefixError, robust := [], 0, 6 + 2, false, false;
      file, packetsSent, bytesSent := [], 0, 0;
      packetsReceived, bytesReceived, receiveErrors := 0, 0, 0;
      this.signing := signing;
    }

    ghost predicate Valid() reads this {
      link.Valid() && UsesX25(link) && bufIndex <= |buf| && expectedLength >= 8
    }

    function Sending(): Sender reads this { Sender(seqNo, srcSystem, srcComponent) }

    ghost function Receiving(): Rx
      requires bufIndex <= |buf|
      reads this
    {
      Rx(buf[bufIndex..], expectedLength, havePrefixError, signing, receiveErrors, packetsReceived, bytesReceived)
    }

    // ----- Sending

    /** send; false where pack raises, and then nothing was written. */
    method Send(m: Message, force: bool) returns (ok: bool)
      requires |m.values| == |m.def.fields| && UsesX25(link)
      modifies m, this`signing, this`file, this`seqNo, this`packetsSent, this`bytesSent
      ensures ok <==> PackFrame(link, old(Sending()), old(signing), m.def, m.values, force).Some?
      ensures ok ==>
                && (m.msgbuf, signing) == PackFrame(link, old(Sending()), old(signing), m.def, m.values, force).value
                && file == old(file) + m.msgbuf && seqNo == (old(seqNo) + 1) % 256
                && packetsSent == old(packetsSent) + 1 && bytesSent == old(bytesSent) + |m.msgbuf|
      ensures !ok ==> file == old(file) && seqNo == old(seqNo) && signing == old(signing)
    {
      ok := m.Pack(this, force);
      if ok {
        file := file + m.msgbuf;
        seqNo := (seqNo + 1) % 256;
        packetsSent := packetsSent + 1;
        bytesSent := bytesSent + |m.msgbuf|;
      }
    }

    // ----- Decoding

    /** check_signature. */
    method CheckSignature(msgbuf: bytes, h: Header) returns (ok: bool)
      requires |msgbuf| >= SIGNATURE_LEN && signing.secretKey.Some?
      modifies this`signing
      ensures (ok, signing) == Frame.CheckSignature(link, old(signing), msgbuf, h)
    {
      var n := |msgbuf|;
      var timestampBuf := msgbuf[n - 12..n - 6];
      var time := FromLe(timestampBuf[..4]) + FromLe(timestampBuf[4..]) * 0x1_0000_0000;
      var key := (msgbuf[n - 13], h.sys, h.comp);
      if key in signing.streams {
        if time <= signing.streams[key] {
          return false;
        }
      } else {
        if time + 6000 * 1000 < signing.timestamp {
          return false;
        }
        signing := signing.(streams := signing.streams[key := time]);
      }
      var sig1 := link.sha256(signing.secretKey.value + msgbuf[..n - 6])[..6];
      var sig2 := msgbuf[n - 6..];
      if sig1 != sig2 {
        return false;
      }
      signing := signing.(timestamp := Max(signing.timestamp, time));
      return true;
    }

    /** The callback for packets without a good signature. */
    method AskUser(msgId: nat) returns (accept: bool)
      modifies this`signing
      ensures (accept, signing) == Frame.AskUser(old(signing), msgId)
    {
      accept := false;
      if signing.allowUnsigned.Some? {
        accept := signing.allowUnsigned.value(msgId);
        if accept {
          signing := signing.(unsignedCount := signing.unsignedCount + 1);
        } else {
          signing := signing.(rejectCount := signing.rejectCount + 1);
        }
      }
    }

    /** The signature part of decode. */
    method Authenticate(msgbuf: bytes, h: Header) returns (accept: bool, sigOk: bool)
      requires |msgbuf| >= TailLen(h)
      modifies this`signing
      ensures Verdict(accept, sigOk, signing) == Frame.Authenticate(link, old(signing), msgbuf, h)
    {
      var signed := h.incompat % 2 != 0;
      sigOk := false;
      if signed {
        signing := signing.(sigCount := signing.sigCount + 1);
      }
      accept := true;
      if signing.secretKey.Some? {
        accept := false;
        if signed {
          sigOk := CheckSignature(msgbuf, h);
          accept := sigOk;
          if sigOk {
            signing := signing.(goodsigCount := signing.goodsigCount + 1);
          } else {
            signing := signing.(badsigCount := signing.badsigCount + 1);
            accept := AskUser(h.msgId);
          }
        } else {
          accept := AskUser(h.msgId);
        }
      }
    }

    /** The checks of decode up to the CRC. */
    method CheckFrame(msgbuf: bytes) returns (fault: Option<DecodeError>)
      requires UsesX25(link)
      ensures fault == FrameFault(link, msgbuf)
    {
      if msgbuf == [] {
        return Some(EmptyBuffer);
      }
      var headerlen := if msgbuf[0] != MARKER_V1 then 10 else 6;
      if |msgbuf| < headerlen {
        return Some(ShortHeader);
      }
      var h := ParseHeader(msgbuf);
      var signatureLen := if h.incompat % 2 != 0 then SIGNATURE_LEN else 0;
      if msgbuf[0] != MARKER_V1 && msgbuf[0] != MARKER_V2 {
        return Some(BadPrefix);
      }
      if h.mlen != |msgbuf| - (headerlen + 2 + signatureLen) {
        return Some(BadLength);
      }
      if h.msgId !in link.dialect {
        return Some(UnknownId);
      }
      var end := |msgbuf| - (2 + signatureLen);
      var crc := FromLe(msgbuf[end..end + 2]);
      var crcbuf := msgbuf[..end][1..] + [link.extra(link.dialect[h.msgId])];
      var crc2 := new Crc.X25Crc(crcbuf);
      var sum := crc2.Value(Crc.Accumulate(Crc.INIT, crcbuf));
      assert sum == Crc.Checksum(crcbuf);
      return if crc != sum then Some(BadChecksum) else None;
    }

    /** decode. */
    method Decode(msgbuf: bytes) returns (d: Decoded)
      requires link.Valid() && UsesX25(link)
      modifies this`signing
      ensures (d, signing) == Frame.Decode(link, old(signing), msgbuf)
    {
      var fault := CheckFrame(msgbuf);
      if fault.Some? {
        return Failed(fault.value);
      }
      var h := ParseHeader(msgbuf);
      var accept, sigOk := Authenticate(msgbuf, h);
      if !accept {
        return Failed(BadSignature);
      }
      var m := BuildMessage(msgbuf, sigOk);
      d := Ok(m);
    }

    /** Zero-extends a short payload and cuts a long one. */
    method FitPayload(payload: bytes, csize: nat) returns (mbuf: bytes)
      ensures mbuf == Fit(payload, csize)
    {
      mbuf := payload;
      if |mbuf| < csize {
        mbuf := mbuf + Zeros(csize - |mbuf|);
      }
      mbuf := mbuf[..csize];
    }

    /** The fields of a message from its payload, zero-extended or cut. */
    method DecodeValues(def: MsgDef, payload: bytes) returns (values: seq<Value>)
      requires def.Unambiguous()
      ensures values == Payload.Unpack(def, Fit(payload, TotalLength(def.Ordered())))
    {
      var mbuf := FitPayload(payload, TotalLength(def.Ordered()));
      values := Payload.DecodeFields(def, mbuf);
    }

    /** The last part of decode: the fields and the message object. */
    method BuildMessage(msgbuf: bytes, sigOk: bool) returns (m: Msg)
      requires link.Valid() && FrameFault(link, msgbuf).None?
      ensures m == Build(link, msgbuf, sigOk)
    {
      var h := ParseHeader(msgbuf);
      var end := |msgbuf| - TailLen(h);
      var payload := msgbuf[HeaderLen(msgbuf[0] != MARKER_V1)..end];
      var values := DecodeValues(link.dialect[h.msgId], payload);
      m := Msg(link.dialect[h.msgId], h, values, FromLe(msgbuf[end..end + 2]), sigOk,
               if sigOk && |msgbuf| >= SIGNATURE_LEN then Some(msgbuf[|msgbuf| - 13]) else None,
               msgbuf, msgbuf[6..end]);
    }

    // ----- Parsing

    /** bytes_needed. */
    method BytesNeeded() returns (n: nat)
      requires Valid()
      ensures n == Stream.BytesNeeded(Receiving())
    {
      var ret := expectedLength - (|buf| - bufIndex);
      n := if ret <= 0 then 1 else ret;
    }

    /** The branch of __parse_char_legacy for a byte that starts no frame. */
    method SkipByte() returns (r: ParseResult)
      requires Valid() && bufIndex < |buf| && !IsMarker(buf[bufIndex])
      modifies this`bufIndex, this`expectedLength, this`receiveErrors, this`havePrefixError
      ensures Valid() && (r, Receiving()) == Stream.SkipByte(robust, old(Receiving()))
    {
      var magic := buf[bufIndex];
      assert buf[bufIndex..][1..] == buf[bufIndex + 1..];
      bufIndex := bufIndex + 1;
      if robust {
        expectedLength := 6 + 2;
        receiveErrors := receiveErrors + 1;
        return Got(BadData([magic], BadPrefix));
      }
      if havePrefixError {
        return Nothing;
      }
      havePrefixError := true;
      receiveErrors := receiveErrors + 1;
      return Raised(BadPrefix);
    }

    /** The check for unknown flags, then decode. */
    method DecodeFrame(mbuf: FrameBytes) returns (d: Decoded)
      requires link.Valid() && UsesX25(link)
      modifies this`signing
      ensures (d, signing) == DecoderOf(link)(old(signing), mbuf)
    {
      if mbuf[0] == MARKER_V2 && mbuf[2] / 2 != 0 {
        d := Failed(BadFlags);
      } else {
        d := Decode(mbuf);
      }
    }

    /** Takes a complete frame off the buffer. */
    method CutFrame(headerLen: nat) returns (mbuf: FrameBytes)
      requires Valid() && 8 <= expectedLength <= |buf| - bufIndex
      requires headerLen == MarkerLen(buf[bufIndex])
      modifies this`bufIndex, this`expectedLength
      ensures Valid() && (mbuf, Receiving()) == Stream.CutFrame(old(Receiving()))
    {
      assert buf[bufIndex..][..expectedLength] == buf[bufIndex..bufIndex + expectedLength];
      assert buf[bufIndex..][expectedLength..] == buf[bufIndex + expectedLength..];
      mbuf := buf[bufIndex..bufIndex + expectedLength];
      bufIndex := bufIndex + expectedLength;
      expectedLength := headerLen + 2;
    }

    /** The message, BAD_DATA or the exception for a frame. */
    method Deliver(mbuf: FrameBytes, d: Decoded) returns (r: ParseResult)
      requires Valid()
      modifies this`receiveErrors
      ensures Valid() && (r, Receiving()) == Stream.Deliver(robust, mbuf, d, old(Receiving()))
    {
      if d.Ok? {
        r := Got(Good(d.msg));
      } else if robust {
        receiveErrors := receiveErrors + 1;
        r := Got(BadData(mbuf, d.error));
      } else {
        r := Raised(d.error);
      }
    }

    /** The branch for a complete frame. */
    method TakeFrame(headerLen: nat) returns (r: ParseResult)
      requires Valid() && 8 <= expectedLength <= |buf| - bufIndex
      requires headerLen == MarkerLen(buf[bufIndex])
      modifies this`bufIndex, this`expectedLength, this`signing, this`receiveErrors
      ensures Valid() && (r, Receiving()) == Stream.TakeFrame(DecoderOf(link), robust, old(Receiving()))
    {
      var mbuf := CutFrame(headerLen);
      var d := DecodeFrame(mbuf);
      r := Deliver(mbuf, d);
    }

    /** __parse_char_legacy. */
    method ParseCharLegacy() returns (r: ParseResult)
      requires Valid()
      modifies this`buf, this`bufIndex, this`expectedLength, this`havePrefixError, this`signing
      modifies this`packetsReceived, this`bytesReceived, this`receiveErrors
      ensures Valid() && (r, Receiving()) == ParseLegacy(DecoderOf(link), robust, old(Receiving()))
    {
      var n := |buf| - bufIndex;
      if n >= 1 && buf[bufIndex] != MARKER_V1 && buf[bufIndex] != MARKER_V2 {
        r := SkipByte();
        return;
      }
      var headerLen := if n >= 1 && buf[bufIndex] == MARKER_V2 then 10 else 6;
      havePrefixError := false;
      if n >= 3 {
        expectedLength := buf[bufIndex + 1];
        if buf[bufIndex] == MARKER_V2 && buf[bufIndex + 2] % 2 != 0 {
          expectedLength := expectedLength + SIGNATURE_LEN;
        }
        expectedLength := expectedLength + headerLen + 2;
      }
      assert Receiving() == Expect(old(Receiving()));
      if expectedLength >= headerLen + 2 && n >= expectedLength {
        r := TakeFrame(headerLen);
      } else {
        r := Nothing;
      }
    }
  
    /** parse_char. */
    method ParseChar(c: bytes) returns (r: ParseResult)
      requires Valid()
      modifies this`buf, this`bufIndex, this`expectedLength, this`havePrefixError, this`signing
      modifies this`packetsReceived, this`bytesReceived, this`receiveErrors
      ensures Valid() && (r, Receiving()) == Stream.ParseChar(DecoderOf(link), robust, old(Receiving()), c)
    {
      ghost var res := ParseLegacy(DecoderOf(link), robust, Extend(Receiving(), c));
      assert Stream.ParseChar(DecoderOf(link), robust, Receiving(), c) == Counted(res);
      Append(c);
      r := ParseCharLegacy();
      assert (r, Receiving()) == res;
      if r.Got? {
        CountPacket();
        assert r == Counted(res).0 && Receiving() == Counted(res).1;
      } else if r.Nothing? {
        Compact();
        assert r == res.0 && Receiving() == res.1;
      } else {
        assert r == res.0 && Receiving() == res.1;
      }
    }

    method CountPacket()
      requires Valid()
      modifies this`packetsReceived
      ensures Valid() && Receiving() == old(Receiving()).(packets := old(Receiving()).packets + 1)
    {
      packetsReceived := packetsReceived + 1;
    }

    method Append(c: bytes)
      requires Valid()
      modifies this`buf, this`bytesReceived
      ensures Valid() && Receiving() == Extend(old(Receiving()), c)
    {
      buf := buf + c;
      bytesReceived := bytesReceived + |c|;
    }

    /** Frees the buffer when all of it has been consumed. */
    method Compact()
      requires Valid()
      modifies this`buf, this`bufIndex
      ensures Valid() && Receiving() == old(Receiving())
    {
      if |buf| - bufIndex == 0 && bufIndex != 0 {
        buf := [];
        bufIndex := 0;
      }
    }

    /** parse_char(""), as one step of the loop of parse_buffer. */
    method ParseMore() returns (m: ParseResult)
      requires Valid()
      modifies this`buf, this`bufIndex, this`expectedLength, this`havePrefixError, this`signing
      modifies this`packetsReceived, this`bytesReceived, this`receiveErrors
      ensures Valid()
      ensures m.Got? ==> |buf| - bufIndex < old(|buf| - bufIndex)
      ensures Drain(DecoderOf(link), robust, old(Receiving())) ==
              match m {
                case Nothing => ([], None, Receiving())
                case Raised(e) => ([], Some(e), Receiving())
                case Got(r) => Onto([r], Drain(DecoderOf(link), robust, Receiving()))
              }
    {
      m := ParseChar([]);
    }

    /** The loop of parse_buffer. */
    method ParseLoop(first: Received) returns (ret: seq<Received>, error: Option<DecodeError>)
      requires Valid()
      modifies this`buf, this`bufIndex, this`expectedLength, this`havePrefixError, this`signing
      modifies this`packetsReceived, this`bytesReceived, this`receiveErrors
      ensures Valid()
      ensures (ret, error, Receiving()) == Onto([first], Drain(DecoderOf(link), robust, old(Receiving())))
    {
      ret := [first];
      while true
        invariant Valid()
        invariant Onto(ret, Drain(DecoderOf(link), robust, Receiving()))
               == Onto([first], Drain(DecoderOf(link), robust, old(Receiving())))
        decreases |buf| - bufIndex
      {
        var m := ParseMore();
        if m.Nothing? {
          assert ret + [] == ret;
          return ret, None;
        } else if m.Raised? {
          assert ret + [] == ret;
          return ret, Some(m.error);
        }
        Reassociate(ret, [m.r], Drain(DecoderOf(link), robust, Receiving()).0);
        ret := ret + [m.r];
      }
    }

    /** parse_buffer; no list where it returns None, and the exception where one ends it and loses the list. */
    method ParseBuffer(s: bytes) returns (ret: Option<seq<Received>>, error: Option<DecodeError>)
      requires Valid()
      modifies this`buf, this`bufIndex, this`expectedLength, this`havePrefixError, this`signing
      modifies this`packetsReceived, this`bytesReceived, this`receiveErrors
      ensures Valid()
      ensures var (got, e, rx) := Feed(DecoderOf(link), robust, old(Receiving()), s);
              && error == e && Receiving() == rx
              && ret == if got == [] || e.Some? then None else Some(got)
    {
      var m := ParseChar(s);
      if m.Nothing? {
        return None, None;
      } else if m.Raised? {
        return None, Some(m.error);
      }
      var list, raised := ParseLoop(m.r);
      return if raised.Some? then None else Some(list), raised;
    }
  }
}
