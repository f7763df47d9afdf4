/**
 Frames byte by byte: what pack of pymavlink/generator/mavgen_python.py writes at each offset, and which buffers decode
 accepts, as a reader of the wire format would say it.
 */
module FrameBytes {
  import opened Bytes
  import opened Layout
  import opened Wire
  import opened Frame
  import Payload
  import Crc

  // ----- What is written

  /** p without its trailing zero bytes, but never without its first byte. */
  ghost predicate IsTrimmed(sent: bytes, p: bytes) {
    && sent <= p && (forall i :: |sent| <= i < |p| ==> p[i] == 0)
    && (p != [] ==> sent != []) && (|sent| > 1 ==> sent[|sent| - 1] != 0)
  }

  lemma {:induction false} TrimCutsZeros(p: bytes)
    ensures IsTrimmed(Trim(p), p)
    decreases |p|
  {
    if |p| > 1 && p[|p| - 1] == 0 {
      TrimCutsZeros(p[..|p| - 1]);
    }
  }

  lemma NotLonger(a: bytes, b: bytes, p: bytes)
    requires IsTrimmed(a, p) && IsTrimmed(b, p)
    ensures |b| <= |a|
  {
    if |b| > 1 {
      assert b[|b| - 1] == p[|b| - 1];
    }
  }

  /** There is only one such prefix. */
  lemma TrimmedIsUnique(a: bytes, b: bytes, p: bytes)
    requires IsTrimmed(a, p) && IsTrimmed(b, p)
    ensures a == b
  {
    NotLonger(a, b, p);
    NotLonger(b, a, p);
  }

  /** The number that up to six bytes spell, the least significant first. */
  function Number(s: bytes): int {
    Digit(s, 0) + 0x100 * Digit(s, 1) + 0x1_0000 * Digit(s, 2) + 0x100_0000 * Digit(s, 3)
    + 0x1_0000_0000 * Digit(s, 4) + 0x100_0000_0000 * Digit(s, 5)
  }

  function Digit(s: bytes, i: nat): int { if i < |s| then s[i] else 0 }

  lemma NumberIsFromLe(s: bytes)
    requires |s| <= 6
    ensures Number(s) == FromLe(s)
  {
    FromLeFrom(s, 0);
    FromLeFrom(s, 1);
    FromLeFrom(s, 2);
    FromLeFrom(s, 3);
    FromLeFrom(s, 4);
    FromLeFrom(s, 5);
    assert s[0..] == s;
  }

  lemma FromLeFrom(s: bytes, i: nat)
    requires |s| <= 6
    ensures i < |s| ==> FromLe(s[i..]) == Digit(s, i) + 0x100 * FromLe(s[i + 1..])
    ensures i == |s| ==> FromLe(s[i..]) == 0
  {
    if i < |s| {
      assert s[i..][1..] == s[i + 1..];
    }
  }

  lemma NumberOfLe(n: nat, k: nat)
    requires k <= 6 && n < Pow256(k)
    ensures Number(Le(n, k)) == n
  {
    NumberIsFromLe(Le(n, k));
    LeRoundTrip(n, k);
  }

  /** k bytes keep the low part of a number. */
  lemma {:induction false} LeKeepsLow(n: nat, k: nat) returns (high: nat)
    ensures n == FromLe(Le(n, k)) + Pow256(k) * high
    decreases k
  {
    if k == 0 {
      high := n;
    } else {
      assert Le(n, k)[1..] == Le(n / 256, k - 1);
      high := LeKeepsLow(n / 256, k - 1);
      assert Pow256(k) * high == 256 * (Pow256(k - 1) * high);
    }
  }

  lemma LowBytes(n: nat, k: nat)
    requires k <= 6
    ensures Number(Le(n, k)) == n % Pow256(k)
  {
    var high := LeKeepsLow(n, k);
    NumberIsFromLe(Le(n, k));
    FromLeRoundTrip(Le(n, k));
    RemainderIs(n, Pow256(k), high, FromLe(Le(n, k)));
  }

  lemma RemainderIs(n: nat, m: nat, q: nat, r: nat)
    requires n == r + m * q && r < m
    ensures n % m == r
  {
    var d := n / m - q;
    assert m * (n / m) + n % m == n;
    assert m * d == m * (n / m) - m * q;
    assert d == 0 by {
      AtLeast(m, d);
      AtLeast(m, -d);
    }
  }

  lemma AtLeast(m: nat, d: int)
    ensures d > 0 ==> m * d >= m
  {
  }

  /** The two header formats. */
  ghost predicate HeaderBytes(v2: bool, head: bytes, plen: nat, flags: nat, sender: Sender, id: nat) {
    if v2 then
      && |head| == 10 && head[0] == 0xFD && head[1] == plen && head[2] == flags && head[3] == 0
      && head[4] == sender.seqNo && head[5] == sender.srcSystem && head[6] == sender.srcComponent
      && Number(head[7..]) == id
    else
      && |head| == 6 && head[0] == 0xFE && head[1] == plen
      && head[2] == sender.seqNo && head[3] == sender.srcSystem && head[4] == sender.srcComponent && head[5] == id
  }

  /** Header, payload and checksum of an unsigned frame. */
  ghost predicate UnsignedBytes(link: Link, v2: bool, flags: nat, sender: Sender, def: MsgDef, sent: bytes,
                                buf: bytes) {
    var hl := if v2 then 10 else 6;
    && |buf| == hl + |sent| + 2 && HeaderBytes(v2, buf[..hl], |sent|, flags, sender, def.id)
    && buf[hl..hl + |sent|] == sent
    && Number(buf[|buf| - 2..]) == link.x25(buf[1..|buf| - 2] + [link.extra(def)])
  }

  lemma HeaderIsBytes(v2: bool, sender: Sender, sg: Signing, def: MsgDef, plen: nat)
    requires PackHeader(v2, SendHeader(sender, sg, def, plen)).Some?
    ensures HeaderBytes(v2, PackHeader(v2, SendHeader(sender, sg, def, plen)).value, plen,
                        if sg.signOutgoing then 1 else 0, sender, def.id)
  {
  }

  lemma AssembledIsBytes(link: Link, v2: bool, sender: Sender, sg: Signing, def: MsgDef, sent: bytes)
    requires PackHeader(v2, SendHeader(sender, sg, def, |sent|)).Some?
    ensures UnsignedBytes(link, v2, if sg.signOutgoing then 1 else 0, sender, def, sent,
                          Assemble(link, v2, SendHeader(sender, sg, def, |sent|), def, sent))
  {
    var h := SendHeader(sender, sg, def, |sent|);
    var head, buf := PackHeader(v2, h).value, Assemble(link, v2, h, def, sent);
    var crc := link.x25((head + sent)[1..] + [link.extra(def)]);
    HeaderIsBytes(v2, sender, sg, def, |sent|);
    NumberOfLe(crc, 2);
    PowValues();
    assert buf == head + sent + Le(crc, 2);
    assert buf[..|head|] == head && buf[|head|..|head| + |sent|] == sent;
    assert buf[1..|buf| - 2] == (head + sent)[1..];
  }

  /** The last 13 bytes of a signed frame: link id, 48 bits of time, and six bytes of a hash of everything before. */
  ghost predicate SignatureBytes(link: Link, linkId: int, time: nat, key: bytes, buf: bytes) {
    && |buf| >= 13 && buf[|buf| - 13] == linkId
    && Number(buf[|buf| - 12..|buf| - 6]) == time % 0x1_0000_0000_0000
    && buf[|buf| - 6..] == link.sha256(key + buf[..|buf| - 6])[..6]
  }

  lemma BlockIsBytes(link: Link, sg: Signing, frame: bytes)
    requires IsByte(sg.linkId) && sg.secretKey.Some?
    ensures SignatureBytes(link, sg.linkId, sg.timestamp, sg.secretKey.value, frame + SignatureBlock(link, sg, frame))
  {
    var head := SignatureHead(sg);
    var signature := SignatureOf(link, sg.secretKey.value, frame + head);
    var buf := frame + SignatureBlock(link, sg, frame);
    assert buf[..|buf| - 6] == frame + head && buf[|buf| - 6..] == signature;
    assert buf[|buf| - 12..|buf| - 6] == Le(sg.timestamp, 8)[..6];
    LePrefix(sg.timestamp, 8, 6);
    LowBytes(sg.timestamp, 6);
    PowValues();
  }

  /**
   What pack writes, byte by byte: marker, length of the payload without its trailing zeros (in version 1 all of it),
   flags, sequence number, system, component and id; the payload; the checksum of all but the marker with the extra
   byte, low byte first; and, when signing and not forced to version 1, the signature block.
   */
  lemma PackedBytes(link: Link, sender: Sender, sg: Signing, def: MsgDef, values: seq<Value>, force: bool)
    returns (sent: bytes)
    requires |values| == |def.fields| && PackFrame(link, sender, sg, def, values, force).Some?
    ensures Payload.Pack(def, values).Some?
    ensures var (v2, payload) := (link.version.V2? && !force, Payload.Pack(def, values).value);
            var (buf, sg') := PackFrame(link, sender, sg, def, values, force).value;
            var end := if sg.signOutgoing && !force then |buf| - 13 else |buf|;
            && (if v2 then IsTrimmed(sent, payload) else sent == payload)
            && 0 <= end && UnsignedBytes(link, v2, if sg.signOutgoing then 1 else 0, sender, def, sent, buf[..end])
            && (sg.signOutgoing && !force ==>
                  && sg.secretKey.Some? && SignatureBytes(link, sg.linkId, sg.timestamp, sg.secretKey.value, buf)
                  && sg' == sg.(timestamp := sg.timestamp + 1))
            && (!(sg.signOutgoing && !force) ==> sg' == sg)
  {
    var payload, frame, block := PackedShape(link, sender, sg, def, values, force);
    TrimCutsZeros(payload);
    sent := SentPayload(UsesV2(link, force), payload);
    AssembledIsBytes(link, UsesV2(link, force), sender, sg, def, sent);
    assert (frame + block)[..|frame|] == frame;
    if sg.signOutgoing && !force {
      BlockIsBytes(link, sg, frame);
    }
  }

  // ----- What is accepted

  predicate IsV2(buf: bytes) { buf != [] && buf[0] == 0xFD }

  /** Whether the flags announce a signature block; version 1 has no flags. */
  predicate Announces(buf: bytes) { IsV2(buf) && |buf| > 2 && buf[2] % 2 == 1 }

  /** The id of a frame that is long enough for a header. */
  function IdIn(buf: bytes): int {
    if IsV2(buf) then Number(if |buf| >= 10 then buf[7..10] else []) else Digit(buf, 5)
  }

  /** Where the checksum stands. */
  function SumAt(buf: bytes): int { |buf| - (if Announces(buf) then 15 else 2) }

  /**
   A frame that is not damaged: one of the two markers, exactly the length that its second byte announces, an id of the
   dialect, and the right checksum.
   */
  ghost predicate Undamaged(link: Link, buf: bytes) {
    && |buf| >= 8 && (buf[0] == 0xFD || buf[0] == 0xFE)
    && SumAt(buf) == (if IsV2(buf) then 10 else 6) + buf[1] as int
    && IdIn(buf) in link.dialect
    && Number(buf[SumAt(buf)..SumAt(buf) + 2])
       == link.x25(buf[1..SumAt(buf)] + [link.extra(link.dialect[IdIn(buf)])])
  }

  lemma HeaderIs(buf: bytes)
    requires |buf| >= (if IsV2(buf) then 10 else 6) && (buf[0] == 0xFD || buf[0] == 0xFE)
    ensures var h := ParseHeader(buf);
            && h.msgId == IdIn(buf) && h.mlen == buf[1] && TailLen(h) == |buf| - SumAt(buf)
            && (h.sys, h.comp) == (if IsV2(buf) then (buf[5], buf[6]) else (buf[3], buf[4]))
            && h.seqNo == (if IsV2(buf) then buf[4] else buf[2])
  {
  }

  /** decode finds no fault with exactly the frames that are not damaged. */
  lemma PassesExactly(link: Link, buf: bytes)
    ensures FrameFault(link, buf).None? <==> Undamaged(link, buf)
  {
    if |buf| >= (if IsV2(buf) then 10 else 6) && (buf[0] == 0xFD || buf[0] == 0xFE) {
      HeaderIs(buf);
      var end := SumAt(buf);
      if end >= 6 {
        NumberIsFromLe(buf[end..end + 2]);
        assert buf[..end][1..] == buf[1..end];
      }
    }
  }

  /** The stream of a frame with a signature block: link id, system and component. */
  function StreamIn(buf: bytes): (int, int, int)
    requires |buf| >= 13
  {
    if IsV2(buf) then (buf[|buf| - 13], Digit(buf, 5), Digit(buf, 6))
    else (buf[|buf| - 13], Digit(buf, 3), Digit(buf, 4))
  }

  /** Later than the last time of its stream or, for a new stream, not more than a minute behind the clock. */
  predicate TimeAcceptable(sg: Signing, buf: bytes)
    requires |buf| >= 13
  {
    var (id, time) := (StreamIn(buf), Number(buf[|buf| - 12..|buf| - 6]));
    if id in sg.streams then time > sg.streams[id] else time + 6_000_000 >= sg.timestamp
  }

  /** A signature block, an acceptable time, and the hash that the key gives. */
  ghost predicate RightlySigned(link: Link, sg: Signing, buf: bytes) {
    && sg.secretKey.Some? && Announces(buf) && |buf| >= 13 && TimeAcceptable(sg, buf)
    && buf[|buf| - 6..] == link.sha256(sg.secretKey.value + buf[..|buf| - 6])[..6]
  }

  /** The user lets frames of this id through. */
  predicate LetThrough(sg: Signing, id: nat) { sg.allowUnsigned.Some? && sg.allowUnsigned.value(id) }

  lemma BlockTimeIs(buf: bytes)
    requires |buf| >= 13
    ensures SignatureTime(buf) == Number(buf[|buf| - 12..|buf| - 6])
  {
    var tb := buf[|buf| - 12..|buf| - 6];
    NumberIsFromLe(tb[..4]);
    NumberIsFromLe(tb[4..]);
  }

  /** What check_signature decides and leaves behind. */
  lemma SignatureChecks(link: Link, sg: Signing, buf: bytes)
    requires Undamaged(link, buf) && Announces(buf) && sg.secretKey.Some?
    ensures |buf| >= 13
    ensures var (ok, sg') := CheckSignature(link, sg, buf, ParseHeader(buf));
            && (ok <==> RightlySigned(link, sg, buf))
            && sg' == sg.(streams := sg'.streams, timestamp := ClockAfter(link, sg, buf))
  {
    HeaderIs(buf);
    BlockTimeIs(buf);
  }

  /** The clock moves up to the time of a rightly signed frame, and for nothing else. */
  ghost function ClockAfter(link: Link, sg: Signing, buf: bytes): int {
    if RightlySigned(link, sg, buf) then Max(sg.timestamp, Number(buf[|buf| - 12..|buf| - 6])) else sg.timestamp
  }

  /** The user is asked about every undamaged frame that is not rightly signed, if there is a key and a callback. */
  ghost predicate IsAsked(link: Link, sg: Signing, buf: bytes) {
    sg.secretKey.Some? && !RightlySigned(link, sg, buf) && sg.allowUnsigned.Some?
  }

  function One(b: bool): nat { if b then 1 else 0 }

  /** The signing state after an undamaged frame, but for the table of streams. */
  ghost predicate StateAfter(link: Link, sg: Signing, buf: bytes, id: nat, sg': Signing) {
    var (right, asked, yes) := (RightlySigned(link, sg, buf), IsAsked(link, sg, buf), LetThrough(sg, id));
    && sg'.sigCount == sg.sigCount + One(Announces(buf))
    && sg'.goodsigCount == sg.goodsigCount + One(right)
    && sg'.badsigCount == sg.badsigCount + One(Announces(buf) && sg.secretKey.Some? && !right)
    && sg'.unsignedCount == sg.unsignedCount + One(asked && yes)
    && sg'.rejectCount == sg.rejectCount + One(asked && !yes)
    && sg'.timestamp == ClockAfter(link, sg, buf)
    && sg'.secretKey == sg.secretKey && sg'.linkId == sg.linkId && sg'.signOutgoing == sg.signOutgoing
    && sg'.allowUnsigned == sg.allowUnsigned
  }

  ghost predicate Decided(link: Link, sg: Signing, buf: bytes, id: nat, v: Verdict) {
    && (v.accept <==> sg.secretKey.None? || RightlySigned(link, sg, buf) || LetThrough(sg, id))
    && (v.sigOk <==> RightlySigned(link, sg, buf))
    && StateAfter(link, sg, buf, id, v.sg)
  }

  lemma WithBlock(link: Link, sg: Signing, buf: bytes)
    requires Undamaged(link, buf) && Announces(buf) && sg.secretKey.Some?
    ensures |buf| >= 15 && Decided(link, sg, buf, ParseHeader(buf).msgId, Authenticate(link, sg, buf, ParseHeader(buf)))
  {
    HeaderIs(buf);
    var counted := sg.(sigCount := sg.sigCount + 1);
    SignatureChecks(link, counted, buf);
    assert RightlySigned(link, counted, buf) == RightlySigned(link, sg, buf);
  }

  lemma WithoutBlock(link: Link, sg: Signing, buf: bytes)
    requires Undamaged(link, buf) && !(Announces(buf) && sg.secretKey.Some?)
    ensures |buf| >= TailLen(ParseHeader(buf))
    ensures Decided(link, sg, buf, ParseHeader(buf).msgId, Authenticate(link, sg, buf, ParseHeader(buf)))
  {
    HeaderIs(buf);
  }

  lemma VerdictDecides(link: Link, sg: Signing, buf: bytes)
    requires link.Valid() && FrameFault(link, buf).None?
    ensures var (v, d) := (Authenticate(link, sg, buf, ParseHeader(buf)), Decode(link, sg, buf));
            && d.1 == v.sg && (d.0.Ok? <==> v.accept) && (d.0.Ok? ==> d.0.msg.signed == v.sigOk)
            && (!d.0.Ok? ==> d.0 == Failed(BadSignature))
  {
  }

  /**
   Whether decode accepts an undamaged frame, and whether as signed. Without a key always, as unsigned. With a key
   exactly if it is rightly signed or the user lets it through; as signed only in the first case. What is counted.
   */
  lemma AcceptsExactly(link: Link, sg: Signing, buf: bytes)
    requires link.Valid() && Undamaged(link, buf)
    ensures var (d, sg') := Decode(link, sg, buf);
            && (d.Ok? <==> sg.secretKey.None? || RightlySigned(link, sg, buf) || LetThrough(sg, IdIn(buf)))
            && (d.Ok? ==> (d.msg.signed <==> RightlySigned(link, sg, buf)))
            && (!d.Ok? ==> d == Failed(BadSignature))
            && StateAfter(link, sg, buf, IdIn(buf), sg')
  {
    PassesExactly(link, buf);
    HeaderIs(buf);
    VerdictDecides(link, sg, buf);
    if Announces(buf) && sg.secretKey.Some? {
      WithBlock(link, sg, buf);
    } else {
      WithoutBlock(link, sg, buf);
    }
  }

  /** A damaged one is refused, and changes nothing. */
  lemma RefusesDamaged(link: Link, sg: Signing, buf: bytes)
    requires link.Valid() && !Undamaged(link, buf)
    ensures !Decode(link, sg, buf).0.Ok? && Decode(link, sg, buf).1 == sg
  {
    PassesExactly(link, buf);
  }

  /**
   Two undamaged frames of one length, version, flags and id that agree outside two adjacent bytes before the checksum
   are the same frame: such damage is always refused.
   */
  lemma DamageIsRefused(link: Link, a: bytes, b: bytes, k: nat)
    requires UsesX25(link) && Undamaged(link, a) && Undamaged(link, b)
    requires |a| == |b| && IsV2(a) == IsV2(b) && Announces(a) == Announces(b) && IdIn(a) == IdIn(b)
    requires 1 <= k < SumAt(a) - 1 && forall i :: 0 <= i < |a| && i != k && i != k + 1 ==> a[i] == b[i]
    ensures a == b
  {
    var end, def := SumAt(a), link.dialect[IdIn(a)];
    var m, n := a[1..end] + [link.extra(def)], b[1..end] + [link.extra(def)];
    assert link.x25(m) == Crc.Checksum(m) && link.x25(n) == Crc.Checksum(n);
    assert a[end..end + 2] == b[end..end + 2];
    Crc.AdjacentDamageIsDetected(m, n, k - 1);
    assert m[k - 1] == a[k] && n[k - 1] == b[k] && m[k] == a[k + 1] && n[k] == b[k + 1];
  }
}
