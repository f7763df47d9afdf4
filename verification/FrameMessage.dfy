/**
 What decode of pymavlink/generator/mavgen_python.py makes of a frame it accepts, byte by byte, which error it gives for
 one it does not, and how the incremental parser delimits a frame.
 */
module FrameMessage {
  import opened Bytes
  import opened Layout
  import opened Wire
  import opened Frame
  import opened FrameBytes
  import Payload
  import Stream

  // ----- Errors

  /** Which check a damaged buffer fails first. */
  ghost predicate IsFault(link: Link, buf: bytes, e: DecodeError) {
    var hl := if buf != [] && buf[0] == 0xFE then 6 else 10;
    if |buf| == 0 then e == EmptyBuffer
    else if |buf| < hl then e == ShortHeader
    else if buf[0] != 0xFE && buf[0] != 0xFD then e == BadPrefix
    else if SumAt(buf) != hl + buf[1] as int then e == BadLength
    else if IdIn(buf) !in link.dialect then e == UnknownId
    else e == BadChecksum
  }

  /** A damaged buffer gives the error of the first check it fails. */
  lemma DamageIsNamed(link: Link, sg: Signing, buf: bytes)
    requires link.Valid() && !Undamaged(link, buf)
    ensures Decode(link, sg, buf).0.Failed? && IsFault(link, buf, Decode(link, sg, buf).0.error)
  {
    PassesExactly(link, buf);
    if |buf| >= (if buf != [] && buf[0] == 0xFE then 6 else 10) && (buf[0] == 0xFD || buf[0] == 0xFE) {
      HeaderIs(buf);
    }
  }

  // ----- The table of streams

  /** A new stream with an acceptable time is entered, whether or not the hash is right; nothing else is changed. */
  ghost function TableAfter(sg: Signing, buf: bytes): map<(int, int, int), nat>
    requires |buf| >= 13
  {
    if sg.secretKey.Some? && Announces(buf) && TimeAcceptable(sg, buf) && StreamIn(buf) !in sg.streams
    then sg.streams[StreamIn(buf) := Number(buf[|buf| - 12..|buf| - 6])]
    else sg.streams
  }

  lemma TableIs(link: Link, sg: Signing, buf: bytes)
    requires |buf| >= 13 && Undamaged(link, buf) && Announces(buf) && sg.secretKey.Some?
    ensures CheckSignature(link, sg, buf, ParseHeader(buf)).1.streams == TableAfter(sg, buf)
  {
    HeaderIs(buf);
    BlockTimeIs(buf);
  }

  lemma UserKeepsTable(sg: Signing, id: nat)
    ensures AskUser(sg, id).1.streams == sg.streams
  {
  }

  lemma VerdictTable(link: Link, sg: Signing, buf: bytes, h: Header, end: map<(int, int, int), nat>)
    requires |buf| >= TailLen(h) == 15 && sg.secretKey.Some?
    requires end == CheckSignature(link, sg.(sigCount := sg.sigCount + 1), buf, h).1.streams
    ensures Authenticate(link, sg, buf, h).sg.streams == end
  {
  }

  /** The table after an undamaged frame. */
  lemma TableExactly(link: Link, sg: Signing, buf: bytes)
    requires link.Valid() && Undamaged(link, buf)
    ensures var table := Decode(link, sg, buf).1.streams;
            if Announces(buf) then |buf| >= 13 && table == TableAfter(sg, buf) else table == sg.streams
  {
    PassesExactly(link, buf);
    HeaderIs(buf);
    VerdictDecides(link, sg, buf);
    var h := ParseHeader(buf);
    if Announces(buf) && sg.secretKey.Some? {
      SignedTable(link, sg, buf, h);
    } else {
      UserKeepsTable(sg, h.msgId);
      NoBlockTable(link, sg, buf, h);
    }
  }

  lemma SignedTable(link: Link, sg: Signing, buf: bytes, h: Header)
    requires |buf| >= 15 && Undamaged(link, buf) && Announces(buf) && sg.secretKey.Some? && h == ParseHeader(buf)
    ensures |buf| >= TailLen(h) && Authenticate(link, sg, buf, h).sg.streams == TableAfter(sg, buf)
  {
    HeaderIs(buf);
    var counted := sg.(sigCount := sg.sigCount + 1);
    TableIs(link, counted, buf);
    VerdictTable(link, sg, buf, h, TableAfter(counted, buf));
  }

  lemma NoBlockTable(link: Link, sg: Signing, buf: bytes, h: Header)
    requires |buf| >= TailLen(h) && (sg.secretKey.None? || TailLen(h) == 2)
    ensures Authenticate(link, sg, buf, h).sg.streams == sg.streams
  {
  }

  // ----- The message

  /** The payload cut out of a frame, filled up or cut to the length of its type. */
  function Filled(buf: bytes, n: nat): (r: bytes)
    requires |buf| >= 8 && (if IsV2(buf) then 10 else 6) <= SumAt(buf) <= |buf|
    ensures |r| == n
  {
    var sent := buf[if IsV2(buf) then 10 else 6..SumAt(buf)];
    seq(n, i requires 0 <= i < n => if i < |sent| then sent[i] else 0)
  }

  /** Header attributes, read off the frame. */
  ghost predicate IsHeader(buf: bytes, h: Header)
    requires |buf| >= 10 || (|buf| >= 8 && !IsV2(buf))
  {
    && h.msgId == IdIn(buf) && h.mlen == buf[1] && h.seqNo == buf[if IsV2(buf) then 4 else 2]
    && h.sys == buf[if IsV2(buf) then 5 else 3] && h.comp == buf[if IsV2(buf) then 6 else 4]
    && h.incompat == (if IsV2(buf) then buf[2] else 0) && h.compat == (if IsV2(buf) then buf[3] else 0)
  }

  /** The other attributes; the payload attribute starts at the sixth byte in both versions. */
  ghost predicate IsMessage(def: MsgDef, buf: bytes, m: Msg)
    requires def.Unambiguous() && |buf| >= 8 && (if IsV2(buf) then 10 else 6) <= SumAt(buf) <= |buf| - 2
  {
    && m.def == def && m.buf == buf && m.payload == buf[6..SumAt(buf)] && IsHeader(buf, m.header)
    && m.crc == Number(buf[SumAt(buf)..SumAt(buf) + 2])
    && m.values == Payload.Unpack(def, Filled(buf, TotalLength(def.Ordered())))
    && m.linkId == if m.signed && |buf| >= 13 then Some(buf[|buf| - 13]) else None
  }

  lemma FilledIsFit(buf: bytes, n: nat)
    requires |buf| >= 8 && (if IsV2(buf) then 10 else 6) <= SumAt(buf) <= |buf|
    ensures Filled(buf, n) == Fit(buf[if IsV2(buf) then 10 else 6..SumAt(buf)], n)
  {
  }

  lemma ReadsHeader(buf: bytes)
    requires |buf| >= (if IsV2(buf) then 10 else 6) && (buf[0] == 0xFD || buf[0] == 0xFE) && |buf| >= 8
    ensures IsHeader(buf, ParseHeader(buf))
  {
  }

  /** Where decode cuts an undamaged frame. */
  lemma PartsAre(link: Link, buf: bytes)
    requires Undamaged(link, buf)
    ensures |buf| >= (if IsV2(buf) then 10 else 6) && HeaderLen(buf[0] != MARKER_V1) == if IsV2(buf) then 10 else 6
    ensures TailLen(ParseHeader(buf)) == |buf| - SumAt(buf) && ParseHeader(buf).msgId == IdIn(buf)
    ensures (if IsV2(buf) then 10 else 6) <= SumAt(buf) <= |buf| - 2
  {
    HeaderIs(buf);
  }

  lemma ValuesFrom(link: Link, buf: bytes, def: MsgDef, a: nat, b: nat, body: bytes)
    requires link.Valid() && FrameFault(link, buf).None? && def == link.dialect[ParseHeader(buf).msgId]
    requires a == HeaderLen(buf[0] != MARKER_V1) && b == |buf| - TailLen(ParseHeader(buf)) && a <= b
    requires body == Fit(buf[a..b], TotalLength(def.Ordered()))
    ensures def.Unambiguous() && ReadValues(link, buf) == Payload.Unpack(def, body)
  {
  }

  lemma ValuesAre(link: Link, buf: bytes, def: MsgDef, n: nat)
    requires link.Valid() && Undamaged(link, buf) && FrameFault(link, buf).None?
    requires def == link.dialect[IdIn(buf)] && n == TotalLength(def.Ordered())
    ensures def.Unambiguous() && (if IsV2(buf) then 10 else 6) <= SumAt(buf) <= |buf|
    ensures ReadValues(link, buf) == Payload.Unpack(def, Filled(buf, n))
  {
    PartsAre(link, buf);
    FilledIsFit(buf, n);
    ValuesFrom(link, buf, def, if IsV2(buf) then 10 else 6, SumAt(buf), Filled(buf, n));
  }

  lemma SumIs(buf: bytes)
    requires 0 <= SumAt(buf) && SumAt(buf) + 2 <= |buf|
    ensures FromLe(buf[SumAt(buf)..SumAt(buf) + 2]) == Number(buf[SumAt(buf)..SumAt(buf) + 2])
  {
    NumberIsFromLe(buf[SumAt(buf)..SumAt(buf) + 2]);
  }

  /** What decode builds, named piece by piece. */
  lemma BuildIs(link: Link, buf: bytes, sigOk: bool, def: MsgDef, h: Header, values: seq<Value>, end: nat)
    requires link.Valid() && FrameFault(link, buf).None? && h == ParseHeader(buf) && end == |buf| - TailLen(h)
    requires h.msgId in link.dialect && def == link.dialect[h.msgId] && values == ReadValues(link, buf)
    requires 6 <= end <= |buf| - 2 && (sigOk ==> |buf| >= 13)
    ensures Build(link, buf, sigOk)
         == Msg(def, h, values, FromLe(buf[end..end + 2]), sigOk, if sigOk then Some(buf[|buf| - 13]) else None, buf,
                buf[6..end])
  {
  }

  lemma MessageFrom(def: MsgDef, buf: bytes, m: Msg)
    requires def.Unambiguous() && |buf| >= 8 && (if IsV2(buf) then 10 else 6) <= SumAt(buf) <= |buf| - 2
    requires IsHeader(buf, m.header) && m.values == Payload.Unpack(def, Filled(buf, TotalLength(def.Ordered())))
    requires m.crc == FromLe(buf[SumAt(buf)..SumAt(buf) + 2])
    requires m == Msg(def, m.header, m.values, m.crc, m.signed,
                      if m.signed && |buf| >= 13 then Some(buf[|buf| - 13]) else None, buf, buf[6..SumAt(buf)])
    ensures IsMessage(def, buf, m)
  {
    SumIs(buf);
  }

  lemma BuildsMessage(link: Link, buf: bytes, sigOk: bool, def: MsgDef, m: Msg)
    requires link.Valid() && Undamaged(link, buf) && FrameFault(link, buf).None? && (sigOk ==> |buf| >= 13)
    requires def == link.dialect[IdIn(buf)] && m == Build(link, buf, sigOk)
    ensures def.Unambiguous() && |buf| >= 8 && (if IsV2(buf) then 10 else 6) <= SumAt(buf) <= |buf| - 2
    ensures IsMessage(def, buf, m) && m.signed == sigOk
  {
    PartsAre(link, buf);
    ReadsHeader(buf);
    var h, values, n := ParseHeader(buf), ReadValues(link, buf), TotalLength(def.Ordered());
    ValuesAre(link, buf, def, n);
    BuildIs(link, buf, sigOk, def, h, values, SumAt(buf));
    MessageFrom(def, buf, m);
  }

  /** An accepted frame becomes exactly the message that it spells. */
  lemma AcceptedIsMessage(link: Link, sg: Signing, buf: bytes)
    requires link.Valid() && Undamaged(link, buf) && Decode(link, sg, buf).0.Ok?
    ensures IsMessage(link.dialect[IdIn(buf)], buf, Decode(link, sg, buf).0.msg)
  {
    PassesExactly(link, buf);
    HeaderIs(buf);
    VerdictDecides(link, sg, buf);
    var v := Authenticate(link, sg, buf, ParseHeader(buf));
    BuildsMessage(link, buf, v.sigOk, link.dialect[IdIn(buf)], Build(link, buf, v.sigOk));
  }

  // ----- Frames in a stream

  /** An undamaged frame is as long as its first three bytes announce, so that a stream is cut right behind it. */
  lemma FrameIsOnePiece(link: Link, buf: bytes, rest: bytes)
    requires Undamaged(link, buf)
    ensures Stream.NextPiece(buf + rest) == Some(Stream.Packet(buf))
  {
    assert (buf + rest)[..|buf|] == buf;
  }

  /** The incremental parser refuses flags it does not know before it looks at anything else; then it decodes. */
  lemma FlagsExactly(link: Stream.Network, sg: Signing, buf: Stream.FrameBytes)
    ensures Stream.DecodeFrame(link, sg, buf)
         == if buf[0] == 0xFD && buf[2] >= 2 then (Failed(BadFlags), sg) else Decode(link, sg, buf)
  {
  }
}
