/**
 The second parser, pymavlink/mavnative/mavnative.c: a state machine that takes one byte at a time, and the
 extraction of field values from its payload buffer.
 */
module Native {
  import opened Bytes
  import opened Layout
  import opened Wire
  import opened Frame
  import Crc

  const STX: byte := MARKER_V1
  /** MAVLINK_MAX_PAYLOAD_LEN of protocol version 1, and the two checksum bytes stored behind the payload. */
  const PAYLOAD_ROOM := 255 + 2

  datatype ParseState =
    | Uninit | Idle | GotStx | GotLength | GotSeq | GotSysid | GotCompid | GotMsgid | GotPayload | GotCrc1

  type Room = p: bytes | |p| == PAYLOAD_ROOM witness Zeros(PAYLOAD_ROOM)

  /** mavlink_status_t and py_message_t, as far as the parser uses them. */
  datatype Machine = Machine(
    state: ParseState, len: byte, seqNo: byte, sysid: byte, compid: byte, msgid: byte, packetIdx: nat,
    payload: Room, checksum: bv16, raw: bytes, parseErrors: nat, received: nat)

  /** What the machine keeps about its place in the payload. */
  ghost predicate Sound(m: Machine) {
    && (m.state.GotMsgid? ==> m.packetIdx < m.len)
    && (m.state.GotPayload? || m.state.GotCrc1? ==> m.packetIdx == m.len)
    && (m.state.GotLength? || m.state.GotSeq? || m.state.GotSysid? || m.state.GotCompid? ==> m.packetIdx == 0)
  }

  /** py_message_info[msgid].crc_extra; entries of unknown messages are zero. */
  function ExtraOf(dialect: map<nat, MsgDef>, msgid: byte): byte {
    if msgid in dialect then CrcExtra(dialect[msgid]) else 0
  }

  /** mavlink_update_checksum. */
  function Update(r: bv16, c: byte): bv16 { Crc.Step(r, Crc.Bits(c)) }

  /** A byte that is part of the checksummed frame. */
  function Take(m: Machine, c: byte, next: ParseState): Machine {
    m.(state := next, checksum := Update(m.checksum, c), raw := m.raw + [c])
  }

  /** A checksum byte that does not match: back to idle, or straight into a new frame. */
  function Resync(m: Machine, c: byte): Machine {
    var m := m.(parseErrors := m.parseErrors + 1, raw := m.raw + [c]);
    if c == STX then m.(state := GotStx, len := 0, checksum := Crc.INIT) else m.(state := Idle)
  }

  /** py_mavlink_parse_char: whether a message is complete, and the machine after the byte. */
  function Step(dialect: map<nat, MsgDef>, m: Machine, c: byte): (r: (bool, Machine))
    requires Sound(m)
    ensures Sound(r.1)
  {
    match m.state
    case Uninit => StepIdle(m, c)
    case Idle => StepIdle(m, c)
    case GotStx => (false, Take(m.(len := c, packetIdx := 0), c, GotLength))
    case GotLength => (false, Take(m.(seqNo := c), c, GotSeq))
    case GotSeq => (false, Take(m.(sysid := c), c, GotSysid))
    case GotSysid => (false, Take(m.(compid := c), c, GotCompid))
    case GotCompid => (false, Take(m.(msgid := c), c, if m.len == 0 then GotPayload else GotMsgid))
    case GotMsgid =>
      var m := m.(payload := m.payload[m.packetIdx := c], packetIdx := m.packetIdx + 1);
      (false, Take(m, c, if m.packetIdx == m.len then GotPayload else GotMsgid))
    case GotPayload =>
      var m := m.(checksum := Update(m.checksum, ExtraOf(dialect, m.msgid)));
      if c != (m.checksum as int) % 256 then (false, Resync(m, c))
      else (false, m.(state := GotCrc1, raw := m.raw + [c], payload := m.payload[m.packetIdx := c]))
    case GotCrc1 =>
      if c != (m.checksum as int) / 256 then (false, Resync(m, c))
      else (true, m.(state := Idle, raw := m.raw + [c], payload := m.payload[m.packetIdx + 1 := c],
                     received := m.received + 1))
  }

  function StepIdle(m: Machine, c: byte): (bool, Machine) {
    if c == STX then (false, m.(state := GotStx, len := 0, checksum := Crc.INIT, raw := [c])) else (false, m)
  }

  /** get_expectedlength. */
  function ExpectedLength(m: Machine): int {
    match m.state
    case Uninit => 8
    case Idle => 8
    case GotStx => 7
    case GotLength => m.len + 6
    case GotSeq => m.len + 5
    case GotSysid => m.len + 4
    case GotCompid => m.len + 3
    case GotMsgid => m.len - m.packetIdx + 2
    case GotPayload => 2
    case GotCrc1 => 1
  }

  // ----- Field values

  /** One value read at an offset. PyLong_FromLongLong takes an unsigned 64-bit number as signed. */
  function NativeAtom(t: FieldType, bs: bytes): Atom
    requires |bs| == TypeLength(t)
  {
    if t.UInt64? && FromLe(bs) >= 0x8000_0000_0000_0000 then Num(FromLe(bs) - 0x1_0000_0000_0000_0000)
    else UnpackAtom(t, bs)
  }

  function NativeAtoms(t: FieldType, bs: bytes, n: nat): (r: seq<Atom>)
    requires |bs| == n * TypeLength(t)
    ensures |r| == n
    decreases n
  {
    if n == 0 then []
    else
      CutOne(n, TypeLength(t));
      [NativeAtom(t, bs[..TypeLength(t)])] + NativeAtoms(t, bs[TypeLength(t)..], n - 1)
  }

  /** pyextract_mavlink on the bytes of one field. */
  function NativeValue(f: Field, bs: bytes): Value
    requires |bs| == WireLength(f)
  {
    if f.arrayLength != 0 && !f.ftype.Char? then Many(NativeAtoms(f.ftype, bs, f.arrayLength))
    else if f.arrayLength != 0 then One(Text(UntilNul(bs)))
    else One(NativeAtom(f.ftype, bs))
  }

  /** What the Python parser makes of the same bytes. */
  function PythonValue(f: Field, bs: bytes): Value
    requires |bs| == WireLength(f)
  {
    Regrouped(f, UnpackFlat(f, bs))
  }

  predicate IsLargeUnsigned(a: Atom) { a.Num? && a.n >= 0x8000_0000_0000_0000 }

  /** The fields on which the two parsers disagree. */
  predicate Disagrees(f: Field, bs: bytes)
    requires |bs| == WireLength(f)
  {
    || (f.arrayLength == 1 && !f.ftype.Char?)
    || (f.arrayLength == 0 && f.ftype.Char? && bs[0] == 0)
    || (f.ftype.UInt64? && exists k :: 0 <= k < |UnpackFlat(f, bs)| && IsLargeUnsigned(UnpackFlat(f, bs)[k]))
  }

  lemma NativeAtomAgrees(t: FieldType, bs: bytes)
    requires |bs| == TypeLength(t)
    ensures NativeAtom(t, bs) == UnpackAtom(t, bs) <==> !(t.UInt64? && IsLargeUnsigned(UnpackAtom(t, bs)))
  {
  }

  lemma {:induction false} NativeAtomsAgree(t: FieldType, bs: bytes, n: nat)
    requires |bs| == n * TypeLength(t)
    ensures NativeAtoms(t, bs, n) == UnpackAtoms(t, bs, n)
       <==> !(t.UInt64? && exists k :: 0 <= k < n && IsLargeUnsigned(UnpackAtoms(t, bs, n)[k]))
    decreases n
  {
    if n > 0 {
      CutOne(n, TypeLength(t));
      var first, rest := bs[..TypeLength(t)], bs[TypeLength(t)..];
      NativeAtomAgrees(t, first);
      NativeAtomsAgree(t, rest, n - 1);
      var na, ua := NativeAtoms(t, rest, n - 1), UnpackAtoms(t, rest, n - 1);
      assert NativeAtoms(t, bs, n)[1..] == na && UnpackAtoms(t, bs, n)[1..] == ua;
      assert forall k :: 0 <= k < n - 1 ==> UnpackAtoms(t, bs, n)[k + 1] == ua[k];
    }
  }

  /** The two parsers read the same value from the same bytes exactly when the field is not one of these. */
  lemma ValuesAgreeExactly(f: Field, bs: bytes)
    requires |bs| == WireLength(f)
    ensures NativeValue(f, bs) == PythonValue(f, bs) <==> !Disagrees(f, bs)
  {
    if !f.ftype.Char? {
      if f.arrayLength == 0 {
        NativeAtomAgrees(f.ftype, bs);
        assert bs[..TypeLength(f.ftype)] == bs;
        assert UnpackFlat(f, bs) == [UnpackAtom(f.ftype, bs)];
      } else if f.arrayLength > 1 {
        NativeAtomsAgree(f.ftype, bs, f.arrayLength);
      }
    } else if f.arrayLength == 0 {
      assert bs[..1] == bs;
      assert UnpackFlat(f, bs) == [Text(bs)];
      UntilNulUnique(bs, if bs[0] == 0 then [] else bs);
    }
  }

  // ----- The connection object

  class NativeConnection {
    const dialect: map<nat, MsgDef>
    var state: ParseState
    var len: byte
    var seqNo: byte
    var sysid: byte
    var compid: byte
    var msgid: byte
    var packetIdx: nat
    const payload: array<byte>
    var checksum: bv16
    var raw: bytes
    var parseErrors: nat
    var received: nat

    constructor (dialect: map<nat, MsgDef>)
      ensures this.dialect == dialect && Valid() && Now().state == Uninit && fresh(payload)
    {
      this.dialect := dialect;
      state, packetIdx, raw, parseErrors, received := Uninit, 0, [], 0, 0;
      len, seqNo, sysid, compid, msgid, checksum := 0, 0, 0, 0, 0, 0;
      payload := new byte[PAYLOAD_ROOM](_ => 0);
    }

    ghost function Now(): Machine
      requires payload.Length == PAYLOAD_ROOM
      reads this, payload
    {
      Machine(state, len, seqNo, sysid, compid, msgid, packetIdx, payload[..], checksum, raw, parseErrors, received)
    }

    ghost predicate Valid() reads this, payload {
      payload.Length == PAYLOAD_ROOM && Sound(Now())
    }

    method Append(c: byte, next: ParseState)
      requires payload.Length == PAYLOAD_ROOM
      modifies this`checksum, this`raw, this`state
      ensures Now() == Take(old(Now()), c, next)
    {
      checksum := Update(checksum, c);
      raw := raw + [c];
      state := next;
    }

    method Fail(c: byte)
      requires payload.Length == PAYLOAD_ROOM
      modifies this`parseErrors, this`raw, this`state, this`len, this`checksum
      ensures Now() == Resync(old(Now()), c)
    {
      parseErrors := parseErrors + 1;
      raw := raw + [c];
      state := Idle;
      if c == STX {
        state := GotStx;
        len := 0;
        checksum := Crc.INIT;
      }
    }

    /** The first checksum case of py_mavlink_parse_char: the extra byte is added first. */
    method ParseFirstSum(c: byte)
      requires Valid() && state.GotPayload?
      modifies this, payload
      ensures Valid() && (false, Now()) == Step(dialect, old(Now()), c)
    {
      checksum := Update(checksum, ExtraOf(dialect, msgid));
      if c != (checksum as int) % 256 {
        Fail(c);
      } else {
        state := GotCrc1;
        raw := raw + [c];
        payload[packetIdx] := c;
      }
    }

    /** The second one, where a message is complete. */
    method ParseLastSum(c: byte) returns (done: bool)
      requires Valid() && state.GotCrc1?
      modifies this, payload
      ensures Valid() && (done, Now()) == Step(dialect, old(Now()), c)
    {
      done := c == (checksum as int) / 256;
      if !done {
        Fail(c);
      } else {
        state := Idle;
        raw := raw + [c];
        payload[packetIdx + 1] := c;
        received := received + 1;
      }
    }

    /** The header cases of py_mavlink_parse_char. */
    method ParseHeaderByte(c: byte)
      requires Valid()
      requires state.GotStx? || state.GotLength? || state.GotSeq? || state.GotSysid? || state.GotCompid?
      modifies this`len, this`packetIdx, this`seqNo, this`sysid, this`compid, this`msgid
      modifies this`checksum, this`raw, this`state
      ensures Valid() && (false, Now()) == Step(dialect, old(Now()), c)
    {
      match state {
        case GotStx =>
          len := c;
          packetIdx := 0;
          Append(c, GotLength);
        case GotLength =>
          seqNo := c;
          Append(c, GotSeq);
        case GotSeq =>
          sysid := c;
          Append(c, GotSysid);
        case GotSysid =>
          compid := c;
          Append(c, GotCompid);
        case GotCompid =>
          msgid := c;
          Append(c, if len == 0 then GotPayload else GotMsgid);
      }
    }

    /** The payload case of py_mavlink_parse_char. */
    method ParsePayloadByte(c: byte)
      requires Valid() && state.GotMsgid?
      modifies this`packetIdx, this`checksum, this`raw, this`state, payload
      ensures Valid() && (false, Now()) == Step(dialect, old(Now()), c)
    {
      payload[packetIdx] := c;
      packetIdx := packetIdx + 1;
      Append(c, if packetIdx == len then GotPayload else GotMsgid);
    }

    /** py_mavlink_parse_char. */
    method ParseByte(c: byte) returns (done: bool)
      requires Valid()
      modifies this, payload
      ensures Valid() && (done, Now()) == Step(dialect, old(Now()), c)
    {
      done := false;
      match state {
        case Uninit => StartFrame(c);
        case Idle => StartFrame(c);
        case GotMsgid => ParsePayloadByte(c);
        case GotPayload => ParseFirstSum(c);
        case GotCrc1 => done := ParseLastSum(c);
        case _ => ParseHeaderByte(c);
      }
    }

    /** The loop of py_parse_buffer: the machine at every completed message. */
    method ParseBuffer(s: bytes) returns (complete: seq<Machine>)
      requires Valid()
      modifies this, payload
      ensures Valid() && (complete, Now()) == Run(dialect, old(Now()), s)
    {
      complete := [];
      assert s[0..] == s && [] + Run(dialect, Now(), s).0 == Run(dialect, Now(), s).0;
      for i := 0 to |s|
        invariant Valid()
        invariant Run(dialect, old(Now()), s)
               == (complete + Run(dialect, Now(), s[i..]).0, Run(dialect, Now(), s[i..]).1)
      {
        assert s[i..][1..] == s[i + 1..];
        var done := ParseByte(s[i]);
        if done {
          var m := Machine(state, len, seqNo, sysid, compid, msgid, packetIdx, payload[..], checksum, raw,
                           parseErrors, received);
          Reassociate(complete, [m], Run(dialect, Now(), s[i + 1..]).0);
          complete := complete + [m];
        }
      }
      assert complete + [] == complete;
    }

    method StartFrame(c: byte)
      requires payload.Length == PAYLOAD_ROOM
      modifies this`state, this`len, this`checksum, this`raw
      ensures Now() == StepIdle(old(Now()), c).1
    {
      if c == STX {
        state := GotStx;
        len := 0;
        raw := [];
        checksum := Crc.INIT;
        raw := raw + [c];
      }
    }
  }

  // ----- Whole streams

  /** The machine fed a stream: the machines at the moments a message was complete, and the last machine. */
  function Run(dialect: map<nat, MsgDef>, m: Machine, s: bytes): (r: (seq<Machine>, Machine))
    requires Sound(m)
    ensures Sound(r.1)
    decreases |s|
  {
    if s == [] then ([], m)
    else
      var (done, m) := Step(dialect, m, s[0]);
      var (more, end) := Run(dialect, m, s[1..]);
      (if done then [m] + more else more, end)
  }

  /** A complete, known, full-length version 1 frame with a matching checksum. */
  ghost predicate ValidFrame(link: Link, f: bytes) {
    && link.Valid() && FrameFault(link, f).None? && f[0] == STX
    && f[1] == TotalLength(link.dialect[f[5]].Ordered())
  }

  lemma ValidFrameSum(link: Link, f: bytes)
    requires ValidFrame(link, f)
    ensures Sized(f) && f[5] in link.dialect
    ensures FromLe(f[|f| - 2..]) == FrameCrc(link, f[..|f| - 2], link.extra(link.dialect[f[5]]))
  {
    assert f[|f| - 2..|f|] == f[|f| - 2..];
  }

  lemma FrameCrcIs(link: Link, body: bytes, def: MsgDef)
    requires UsesX25(link) && |body| > 0
    ensures FrameCrc(link, body, link.extra(def)) == Crc.Accumulate(Crc.INIT, body[1..] + [CrcExtra(def)]) as int
  {
    var fed := body[1..] + [CrcExtra(def)];
    assert link.x25(fed) == Crc.Checksum(fed);
    assert link.extra(def) == CrcExtra(def);
  }

  lemma ValidFrameShape(link: Link, f: bytes)
    requires ValidFrame(link, f) && UsesX25(link)
    ensures Sized(f) && f[5] in link.dialect
    ensures FromLe(f[|f| - 2..]) == Crc.Accumulate(Crc.INIT, f[1..|f| - 2] + [CrcExtra(link.dialect[f[5]])]) as int
  {
    ValidFrameSum(link, f);
    assert f[..|f| - 2][1..] == f[1..|f| - 2];
    FrameCrcIs(link, f[..|f| - 2], link.dialect[f[5]]);
  }

  predicate Sized(f: bytes) { |f| >= 8 && |f| == PayloadLen(f) + 8 }

  function PayloadLen(f: bytes): nat
    requires |f| > 1
  {
    f[1]
  }

  /** Where the machine is after k bytes of a frame. */
  function StateAfter(len: nat, k: nat): ParseState {
    if k == 1 then GotStx
    else if k == 2 then GotLength
    else if k == 3 then GotSeq
    else if k == 4 then GotSysid
    else if k == 5 then GotCompid
    else if k < 6 + len then GotMsgid
    else if k == 6 + len then GotPayload
    else GotCrc1
  }

  /** What the machine has recorded after k bytes of frame f. */
  ghost predicate InFrame(dialect: map<nat, MsgDef>, m: Machine, f: bytes, k: nat)
    requires Sized(f)
  {
    && 1 <= k < |f|
    && m.state == StateAfter(f[1], k) && m.raw == f[..k]
    && (k >= 2 ==> m.len == f[1])
    && (k >= 3 ==> m.seqNo == f[2])
    && (k >= 4 ==> m.sysid == f[3])
    && (k >= 5 ==> m.compid == f[4])
    && (k >= 6 ==> m.msgid == f[5])
    && (k >= 2 ==> m.packetIdx == Max(0, Min(k - 6, f[1])))
    && (k >= 6 ==> m.payload[..m.packetIdx] == f[6..6 + m.packetIdx])
    && (k == |f| - 1 ==> m.payload[f[1]] == f[k - 1])
    && m.checksum == (if k <= 6 + PayloadLen(f) then FedBytes(f, k)
                      else Update(FedBytes(f, 6 + PayloadLen(f)), ExtraOf(dialect, f[5])))
  }

  /** The checksum register over the first k bytes of a frame, marker excluded. */
  function FedBytes(f: bytes, k: nat): bv16
    requires 1 <= k <= |f|
  {
    Crc.Accumulate(Crc.INIT, f[1..k])
  }

  lemma FeedOne(f: bytes, k: nat)
    requires 1 <= k < |f|
    ensures FedBytes(f, k + 1) == Update(FedBytes(f, k), f[k])
  {
    assert f[1..k + 1] == f[1..k] + [f[k]];
    Crc.Chains(Crc.INIT, f[1..k], [f[k]]);
  }

  /** Once the length byte is in, get_expectedlength is exactly the number of bytes left in the frame. */
  lemma ExpectedLengthIsExact(dialect: map<nat, MsgDef>, m: Machine, f: bytes, k: nat)
    requires Sized(f) && InFrame(dialect, m, f, k)
    ensures k >= 2 ==> ExpectedLength(m) == |f| - k
    ensures k == 1 ==> ExpectedLength(m) == 7 <= |f| - k
  {
  }

  /** Before it, it is what the shortest frame takes. */
  lemma ExpectedAtRest(m: Machine, f: bytes)
    requires Sized(f) && (m.state.Idle? || m.state.Uninit?)
    ensures ExpectedLength(m) <= |f| && (PayloadLen(f) == 0 ==> ExpectedLength(m) == |f|)
  {
  }

  lemma HeaderByte(dialect: map<nat, MsgDef>, m: Machine, f: bytes, k: nat)
    requires Sized(f) && InFrame(dialect, m, f, k) && Sound(m)
    requires k < 6
    ensures !Step(dialect, m, f[k]).0 && InFrame(dialect, Step(dialect, m, f[k]).1, f, k + 1)
  {
    FeedOne(f, k);
    assert f[..k + 1] == f[..k] + [f[k]];
  }

  lemma PayloadByte(dialect: map<nat, MsgDef>, m: Machine, f: bytes, k: nat)
    requires Sized(f) && InFrame(dialect, m, f, k) && Sound(m)
    requires 6 <= k < 6 + PayloadLen(f)
    ensures !Step(dialect, m, f[k]).0 && InFrame(dialect, Step(dialect, m, f[k]).1, f, k + 1)
  {
    FeedOne(f, k);
    assert f[..k + 1] == f[..k] + [f[k]];
    var p := m.packetIdx;
    var payload := m.payload[p := f[k]];
    assert payload[..p + 1] == m.payload[..p] + [f[k]];
    assert f[6..6 + p + 1] == f[6..6 + p] + [f[k]];
  }

  /** What the two checksum bytes of a frame spell. */
  function SumOf(dialect: map<nat, MsgDef>, f: bytes): bv16
    requires Sized(f)
  {
    Update(FedBytes(f, |f| - 2), ExtraOf(dialect, f[5]))
  }

  /** The last two bytes of a frame are the register after header, payload and extra byte. */
  lemma ChecksumBytes(link: Link, f: bytes)
    requires ValidFrame(link, f) && UsesX25(link) && Sized(f)
    ensures var sum := SumOf(link.dialect, f);
            f[|f| - 2] == (sum as int) % 256 && f[|f| - 1] == (sum as int) / 256
  {
    ValidFrameShape(link, f);
    var k := |f| - 2;
    Crc.Chains(Crc.INIT, f[1..k], [CrcExtra(link.dialect[f[5]])]);
    TwoBytes(f[k..]);
  }

  lemma MatchesFirst(dialect: map<nat, MsgDef>, m: Machine, c: byte, sum: bv16)
    requires Sound(m) && m.state.GotPayload? && sum == Update(m.checksum, ExtraOf(dialect, m.msgid))
    requires c == (sum as int) % 256
    ensures Step(dialect, m, c) ==
              (false, m.(state := GotCrc1, checksum := sum, raw := m.raw + [c], payload := m.payload[m.packetIdx := c]))
  {
  }

  lemma FirstInFrame(dialect: map<nat, MsgDef>, m: Machine, f: bytes)
    requires Sized(f) && InFrame(dialect, m, f, |f| - 2) && Sound(m)
    requires f[|f| - 2] == (SumOf(dialect, f) as int) % 256
    ensures var (done, n) := Step(dialect, m, f[|f| - 2]);
            !done && InFrame(dialect, n, f, |f| - 1)
  {
    var k := |f| - 2;
    MatchesFirst(dialect, m, f[k], SumOf(dialect, f));
    assert f[..k + 1] == f[..k] + [f[k]];
    assert m.payload[m.packetIdx := f[k]][..m.packetIdx] == m.payload[..m.packetIdx];
  }

  /** The first checksum byte: the extra byte goes into the register before the comparison. */
  lemma FirstChecksumByte(link: Link, m: Machine, f: bytes)
    requires ValidFrame(link, f) && UsesX25(link) && Sized(f) && InFrame(link.dialect, m, f, |f| - 2) && Sound(m)
    ensures var (done, n) := Step(link.dialect, m, f[|f| - 2]);
            !done && InFrame(link.dialect, n, f, |f| - 1)
  {
    ChecksumBytes(link, f);
    FirstInFrame(link.dialect, m, f);
  }

  lemma TwoBytes(s: bytes)
    requires |s| == 2
    ensures s[0] == FromLe(s) % 256 && s[1] == FromLe(s) / 256
  {
    assert FromLe(s) == s[0] + 256 * FromLe(s[1..]);
    assert FromLe(s[1..]) == s[1] + 256 * FromLe(s[1..][1..]);
  }

  /** The machine when a frame is complete. */
  ghost predicate Completed(m: Machine, f: bytes)
    requires Sized(f)
  {
    && m.state.Idle? && m.raw == f && m.len == f[1]
    && m.seqNo == f[2] && m.sysid == f[3] && m.compid == f[4] && m.msgid == f[5]
    && m.payload[..f[1]] == f[6..|f| - 2] && m.payload[f[1]] == f[|f| - 2] && m.payload[f[1] + 1] == f[|f| - 1]
  }

  lemma MatchesLast(dialect: map<nat, MsgDef>, m: Machine, c: byte)
    requires Sound(m) && m.state.GotCrc1? && c == (m.checksum as int) / 256
    ensures Step(dialect, m, c) ==
              (true, m.(state := Idle, raw := m.raw + [c], payload := m.payload[m.packetIdx + 1 := c],
                        received := m.received + 1))
  {
  }

  lemma LastInFrame(dialect: map<nat, MsgDef>, m: Machine, f: bytes)
    requires Sized(f) && InFrame(dialect, m, f, |f| - 1) && Sound(m)
    requires f[|f| - 1] == (SumOf(dialect, f) as int) / 256
    ensures var (done, n) := Step(dialect, m, f[|f| - 1]);
            done && Completed(n, f)
  {
    var k := |f| - 2;
    MatchesLast(dialect, m, f[k + 1]);
    assert f[..k + 1] + [f[k + 1]] == f;
    var p := m.payload[m.packetIdx + 1 := f[k + 1]];
    assert p[..m.packetIdx] == m.payload[..m.packetIdx];
  }

  lemma LastChecksumByte(link: Link, m: Machine, f: bytes)
    requires ValidFrame(link, f) && UsesX25(link) && Sized(f) && InFrame(link.dialect, m, f, |f| - 1) && Sound(m)
    ensures var (done, n) := Step(link.dialect, m, f[|f| - 1]);
            done && Completed(n, f)
  {
    ChecksumBytes(link, f);
    LastInFrame(link.dialect, m, f);
  }

  lemma InnerByte(link: Link, m: Machine, f: bytes, k: nat)
    requires ValidFrame(link, f) && UsesX25(link) && Sized(f) && InFrame(link.dialect, m, f, k) && Sound(m)
    requires k < |f| - 1
    ensures !Step(link.dialect, m, f[k]).0 && InFrame(link.dialect, Step(link.dialect, m, f[k]).1, f, k + 1)
  {
    if k < 6 {
      HeaderByte(link.dialect, m, f, k);
    } else if k < 6 + PayloadLen(f) {
      PayloadByte(link.dialect, m, f, k);
    } else {
      assert k == |f| - 2;
      FirstChecksumByte(link, m, f);
    }
  }

  /** One byte inside a frame, and the machine after it. */
  lemma FrameByte(link: Link, m: Machine, f: bytes, k: nat) returns (next: Machine)
    requires ValidFrame(link, f) && UsesX25(link) && Sized(f) && InFrame(link.dialect, m, f, k) && Sound(m)
    ensures Sound(next) && Step(link.dialect, m, f[k]) == (k == |f| - 1, next)
    ensures if k == |f| - 1 then Completed(next, f) else InFrame(link.dialect, next, f, k + 1)
  {
    next := Step(link.dialect, m, f[k]).1;
    if k == |f| - 1 {
      LastChecksumByte(link, m, f);
    } else {
      InnerByte(link, m, f, k);
    }
  }

  lemma RunStep(dialect: map<nat, MsgDef>, m: Machine, s: bytes, done: bool, next: Machine)
    requires Sound(m) && Sound(next) && s != [] && Step(dialect, m, s[0]) == (done, next)
    ensures Run(dialect, m, s)
         == ((if done then [next] else []) + Run(dialect, next, s[1..]).0, Run(dialect, next, s[1..]).1)
  {
    assert [] + Run(dialect, next, s[1..]).0 == Run(dialect, next, s[1..]).0;
  }

  lemma RestOfStream(f: bytes, k: nat, rest: bytes)
    requires k < |f|
    ensures (f[k..] + rest)[0] == f[k] && (f[k..] + rest)[1..] == f[k + 1..] + rest
  {
  }

  /** From inside a frame, the rest of it completes exactly one message. */
  lemma {:induction false} RunFrameFrom(link: Link, m: Machine, f: bytes, k: nat, rest: bytes) returns (n: Machine)
    requires ValidFrame(link, f) && UsesX25(link) && Sized(f) && InFrame(link.dialect, m, f, k) && Sound(m)
    ensures Completed(n, f) && Sound(n)
    ensures Run(link.dialect, m, f[k..] + rest)
         == ([n] + Run(link.dialect, n, rest).0, Run(link.dialect, n, rest).1)
    decreases |f| - k
  {
    var next := FrameByte(link, m, f, k);
    RestOfStream(f, k, rest);
    RunStep(link.dialect, m, f[k..] + rest, k == |f| - 1, next);
    if k == |f| - 1 {
      n := next;
      assert f[k + 1..] + rest == rest;
    } else {
      n := RunFrameFrom(link, next, f, k + 1, rest);
      assert [] + ([n] + Run(link.dialect, n, rest).0) == [n] + Run(link.dialect, n, rest).0;
    }
  }

  lemma FrameStart(link: Link, m: Machine, f: bytes) returns (next: Machine)
    requires ValidFrame(link, f) && UsesX25(link) && Sized(f) && (m.state.Idle? || m.state.Uninit?) && Sound(m)
    ensures Sound(next) && Step(link.dialect, m, f[0]) == (false, next) && InFrame(link.dialect, next, f, 1)
  {
    next := Step(link.dialect, m, f[0]).1;
    assert f[1..1] == [] && f[..1] == [f[0]];
  }

  /** A frame that arrives at an idle machine. */
  lemma RunFrame(link: Link, m: Machine, f: bytes, rest: bytes) returns (n: Machine)
    requires ValidFrame(link, f) && UsesX25(link) && Sized(f) && (m.state.Idle? || m.state.Uninit?) && Sound(m)
    ensures Completed(n, f) && Sound(n)
    ensures Run(link.dialect, m, f + rest)
         == ([n] + Run(link.dialect, n, rest).0, Run(link.dialect, n, rest).1)
  {
    var next := FrameStart(link, m, f);
    assert f[0..] == f;
    RestOfStream(f, 0, rest);
    RunStep(link.dialect, m, f + rest, false, next);
    n := RunFrameFrom(link, next, f, 1, rest);
    assert [] + ([n] + Run(link.dialect, n, rest).0) == [n] + Run(link.dialect, n, rest).0;
  }
}
